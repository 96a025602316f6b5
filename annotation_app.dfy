/**
 * `annotation_app.py`: the variant that edits the upload at full size and
 * saves the mask next to the working directory under a name taken from the
 * upload's file name, adding a counter until the name is free.
 */
module AnnotationApp {
  import opened Wrappers
  import opened Raster
  import opened Editor
  import opened Decimal
  import opened PathText

  const LoadFailedStatus: string := "Ошибка загрузки"
  const LoadFirstStatus: string := "Сначала загрузите изображение!"
  const NoImageStatus: string := "Нет изображения для разметки"
  const ClearedStatus: string := "Разметка очищена"
  const ReadyStatus: string := "Готов к работе. Загрузите изображение."
  const LoadedPrefix: string := "Загружено: "
  /** `load_image`'s status when the upload has no file name. */
  const SizeStatusPrefix: string := "Изображение загружено: "
  /** Shown instead of a temporary upload's name. */
  const TemporaryName: string := "изображение (временный файл)"
  /** The fallback output name is this followed by `int(time.time())`. */
  const TimestampPrefix: string := "image_"

  /** The file name looks like a temporary upload: its lower-cased form contains "tmp". */
  predicate LooksTemporary(name: string) {
    Contains(Lower(name), "tmp")
  }

  /** The upload has a file name and its basename does not look temporary. */
  predicate UsesFileName(filename: string) {
    filename != "" && !LooksTemporary(BaseName(filename))
  }

  /** "image_" and decimal digits contain no 't' in either case. */
  lemma TimestampNameNotTemporary(now: nat)
    ensures !LooksTemporary(TimestampPrefix + NatToString(now))
  {
    var s := TimestampPrefix + NatToString(now);
    forall i | 0 <= i < |s| ensures Lower(s)[i] != 't' {
      if i >= |TimestampPrefix| {
        assert s[i] == NatToString(now)[i - |TimestampPrefix|];
      }
    }
    AbsentFirstChar(Lower(s), "tmp");
  }

  /**
   * The output name before "_mask": the upload's basename without its
   * extension when `UsesFileName`, else "image_" and the time in seconds.
   */
  function OutputStem(filename: string, now: nat): (stem: string)
    ensures UsesFileName(filename) ==> stem + SplitExt(BaseName(filename)).1 == BaseName(filename)
    ensures !UsesFileName(filename) ==> stem == TimestampPrefix + NatToString(now)
    ensures '/' !in stem
    ensures !LooksTemporary(stem)
  {
    if UsesFileName(filename) then
      var base := BaseName(filename);
      var stem := SplitExt(base).0;
      assert stem == base[..|stem|];
      LowerPrefix(base, |stem|);
      PrefixKeepsAbsence(Lower(base), |stem|, "tmp");
      stem
    else
      TimestampNameNotTemporary(now);
      TimestampPrefix + NatToString(now)
  }

  /** The `k`-th name the save loop tries: `{stem}_mask.png`, then `{stem}_mask_{k}.png`. */
  function Candidate(stem: string, k: nat): (c: string)
    ensures |c| >= |stem| + 9
    ensures (k == 0) == (|c| == |stem| + 9)
  {
    if k == 0 then stem + "_mask.png" else stem + "_mask_" + NatToString(k) + ".png"
  }

  /** Every candidate is the stem, then "_mask", then "." for the first or "_" and the counter, then ".png". */
  lemma CandidateShape(stem: string, k: nat)
    ensures var c := Candidate(stem, k);
      && c[..|stem|] == stem && c[|stem|..|stem| + 5] == "_mask" && c[|c| - 4..] == ".png"
      && (k == 0) == (c[|stem| + 5] == '.')
  {
    var c := Candidate(stem, k);
    if k == 0 {
      assert c[|stem|..] == "_mask.png";
    } else {
      assert c[..|stem| + 6] == stem + "_mask_";
    }
  }

  /** The save loop never tries the same name twice. */
  lemma CandidateInjective(stem: string, j: nat, k: nat)
    requires Candidate(stem, j) == Candidate(stem, k)
    ensures j == k
  {
    if j != 0 && k != 0 {
      var cj, ck := Candidate(stem, j), Candidate(stem, k);
      assert cj == (stem + "_mask_") + NatToString(j) + ".png";
      assert ck == (stem + "_mask_") + NatToString(k) + ".png";
      assert cj[|stem| + 6..|cj| - 4] == NatToString(j);
      assert ck[|stem| + 6..|ck| - 4] == NatToString(k);
      NatToStringInjective(j, k);
    }
  }

  /** Every candidate is a bare file name: the mask goes to the working directory. */
  lemma CandidateHasNoDirectory(stem: string, k: nat)
    requires '/' !in stem
    ensures '/' !in Candidate(stem, k)
  {
    var digits := NatToString(k);
    forall i | 0 <= i < |digits| ensures digits[i] != '/' {
    }
  }

  /** `k` is the first candidate index whose name is not taken. */
  predicate FirstFree(stem: string, existing: set<string>, k: nat) {
    && Candidate(stem, k) !in existing
    && forall j :: 0 <= j < k ==> Candidate(stem, j) in existing
  }

  /** There is only one first free index. */
  lemma FirstFreeUnique(stem: string, existing: set<string>, k: nat, k': nat)
    requires FirstFree(stem, existing, k) && FirstFree(stem, existing, k')
    ensures k == k'
  {
  }

  lemma SubsetCardinality<T>(a: set<T>, b: set<T>)
    requires a <= b
    ensures |a| <= |b|
  {
    assert b == a + (b - a);
  }

  /**
   * The first `n` candidates are all taken, and `tried` holds exactly those
   * `n` distinct names.
   */
  ghost predicate Probed(stem: string, existing: set<string>, tried: set<string>, n: nat) {
    && (forall j :: 0 <= j < n ==> Candidate(stem, j) in existing)
    && tried <= existing && |tried| == n
    && (forall p :: p in tried ==> exists j :: 0 <= j < n && p == Candidate(stem, j))
  }

  /** The next candidate is not among the earlier ones. */
  lemma NextNotTried(stem: string, tried: set<string>, n: nat)
    requires forall p :: p in tried ==> exists j :: 0 <= j < n && p == Candidate(stem, j)
    ensures Candidate(stem, n) !in tried
  {
    if Candidate(stem, n) in tried {
      var j :| 0 <= j < n && Candidate(stem, n) == Candidate(stem, j);
      CandidateInjective(stem, j, n);
    }
  }

  /** Probing one more taken candidate adds a new name, so fewer taken names are left untried. */
  lemma ProbeStep(stem: string, existing: set<string>, tried: set<string>, n: nat)
    requires Probed(stem, existing, tried, n) && Candidate(stem, n) in existing
    ensures Probed(stem, existing, tried + {Candidate(stem, n)}, n + 1)
    ensures |existing - (tried + {Candidate(stem, n)})| < |existing - tried|
  {
    var next := Candidate(stem, n);
    NextNotTried(stem, tried, n);
    assert existing - (tried + {next}) == (existing - tried) - {next};
  }

  /** When the probe stops, it stopped at the first free index, which is at most `|existing|`. */
  lemma ProbeDone(stem: string, existing: set<string>, tried: set<string>, n: nat)
    requires Probed(stem, existing, tried, n) && Candidate(stem, n) !in existing
    ensures n <= |existing| && FirstFree(stem, existing, n)
  {
    SubsetCardinality(tried, existing);
  }

  /**
   * The `while os.path.exists(output_path)` loop of `save_mask`, with
   * `existing` the paths already on disk: the first free candidate.
   */
  method AllocateOutputPath(stem: string, existing: set<string>) returns (path: string)
    ensures path !in existing
    ensures exists k: nat :: k <= |existing| && FirstFree(stem, existing, k) && path == Candidate(stem, k)
  {
    path := stem + "_mask.png";
    var counter := 1;
    ghost var tried: set<string> := {};
    while path in existing
      invariant counter >= 1 && path == Candidate(stem, counter - 1)
      invariant Probed(stem, existing, tried, counter - 1)
      decreases |existing - tried|
    {
      ProbeStep(stem, existing, tried, counter - 1);
      tried := tried + {path};
      path := stem + "_mask_" + NatToString(counter) + ".png";
      counter := counter + 1;
    }
    ProbeDone(stem, existing, tried, counter - 1);
  }

  /** Saving again with the file just written on disk takes a later candidate. */
  lemma SecondSaveTakesLaterName(stem: string, existing: set<string>, k: nat, k': nat)
    requires FirstFree(stem, existing, k)
    requires FirstFree(stem, existing + {Candidate(stem, k)}, k')
    ensures k < k' && Candidate(stem, k') != Candidate(stem, k)
  {
  }

  function SavedStatus(path: string): string {
    "Маска сохранена как " + path
  }

  /**
   * `save_mask`: names the output after the upload, derives the mask at the
   * upload's size and writes it under the first free candidate name.
   */
  method SaveMask(originalImg: Option<Image>, editor: Option<EditorState>, now: nat, existing: set<string>)
    returns (out: SaveOutput)
    ensures originalImg.None? ==> out == SaveOutput(None, LoadFirstStatus, None)
    ensures originalImg.Some? ==>
              && out.file.Some? && out.file.value !in existing && '/' !in out.file.value
              && (exists k: nat :: FirstFree(OutputStem(originalImg.value.filename, now), existing, k) &&
                               out.file.value == Candidate(OutputStem(originalImg.value.filename, now), k))
              && out.written == Some(MaskFromEditor(editor, originalImg.value.size))
              && out.status == SavedStatus(out.file.value)
  {
    if originalImg.None? {
      return SaveOutput(None, LoadFirstStatus, None);
    }
    var stem := OutputStem(originalImg.value.filename, now);
    var mask := MaskFromEditor(editor, originalImg.value.size);
    var path := AllocateOutputPath(stem, existing);
    ghost var k: nat :| path == Candidate(stem, k);
    CandidateHasNoDirectory(stem, k);
    out := SaveOutput(Some(path), SavedStatus(path), Some(mask));
  }

  /** `load_image`'s status: the upload's basename, a placeholder for temporary names, or its size. */
  function LoadStatus(img: Image): (s: string)
    ensures UsesFileName(img.filename) ==> s == LoadedPrefix + BaseName(img.filename)
    ensures img.filename != "" && !UsesFileName(img.filename) ==> s == LoadedPrefix + TemporaryName
    ensures img.filename == "" ==>
              s == SizeStatusPrefix + NatToString(img.size.width) + "x" + NatToString(img.size.height)
  {
    if img.filename != "" then
      LoadedPrefix + (if LooksTemporary(BaseName(img.filename)) then TemporaryName else BaseName(img.filename))
    else
      SizeStatusPrefix + NatToString(img.size.width) + "x" + NatToString(img.size.height)
  }

  /** `load_image`: the upload itself, an unpainted editor value over it, and a status. */
  function LoadImage(img: Option<Image>): (out: LoadOutput)
    ensures img.None? ==> out == LoadOutput(None, None, LoadFailedStatus, None)
    ensures img.Some? ==> && out.image == img && out.file == None
                          && out.editor == Some(Unpainted(img.value, NoIdKey))
                          && out.status == LoadStatus(img.value)
  {
    if img.None? then LoadOutput(None, None, LoadFailedStatus, None)
    else LoadOutput(img, Some(Unpainted(img.value, NoIdKey)), LoadStatus(img.value), None)
  }

  /** Prefixing a split name with `prefix` prefixes the whole name. */
  lemma PrefixJoin(prefix: string, stem: string, ext: string, name: string)
    requires stem + ext == name
    ensures prefix + stem + ext == prefix + name
  {
  }

  /**
   * The name `load_image` reports is the name `save_mask` saves under, with
   * its extension; a temporary name is reported as the placeholder.
   */
  lemma LoadStatusNamesOutput(img: Image, now: nat)
    requires img.filename != ""
    ensures UsesFileName(img.filename) ==>
              LoadStatus(img) == LoadedPrefix + OutputStem(img.filename, now) + SplitExt(BaseName(img.filename)).1
    ensures !UsesFileName(img.filename) ==> LoadStatus(img) == LoadedPrefix + TemporaryName
  {
    if UsesFileName(img.filename) {
      PrefixJoin(LoadedPrefix, OutputStem(img.filename, now), SplitExt(BaseName(img.filename)).1, BaseName(img.filename));
    }
  }

  /** `clear_sketch`: an unpainted editor value over the upload; the old value is not read. */
  function ClearSketch(image: Option<Image>, current: Option<EditorState>): (out: ClearOutput)
    ensures image.None? ==> out == ClearOutput(None, NoImageStatus, None)
    ensures image.Some? ==> && out.status == ClearedStatus && out.file == None && out.editor.Some?
                            && out.editor.value.background == out.editor.value.composite == image
                            && out.editor.value.layers == [] && out.editor.value.imgId == NoIdKey
  {
    if image.None? then ClearOutput(None, NoImageStatus, None)
    else ClearOutput(Some(Unpainted(image.value, NoIdKey)), ClearedStatus, None)
  }

  /** Clearing returns the editor to the value loading the same image produced, whatever was drawn. */
  lemma ClearRestoresLoadedEditor(img: Image, current: Option<EditorState>)
    ensures ClearSketch(Some(img), current).editor == LoadImage(Some(img)).editor
  {
  }

  /** `reset_all`: every output emptied, and the ready status. */
  function ResetAll(): (out: ResetOutput)
    ensures out.image.None? && out.editor.None? && out.file.None? && out.preview.None?
    ensures out.status == ReadyStatus
  {
    ResetOutput(None, None, ReadyStatus, None, None)
  }
}
