/**
 * process_images: one pass over the "Movies" sheet that locates, copies and
 * records each title's poster and still, then updates the workbook and
 * builds the report.
 *
 * The pass is specified in two layers: `Examine` is what the loop body
 * reads and searches for one row (the cleaned cells and the two located
 * files), and `Apply` is what it then does to the run's state (the copies,
 * the movie data and the missing titles). `Run` folds `Apply` over the rows.
 */
module Process {
  import opened Optional
  import opened Text
  import Dict
  import opened ImageManagement
  import Excel
  import Report

  /** One row of the "Movies" sheet as pandas reads it; an empty cell is None. */
  datatype CatalogRow = CatalogRow(title: Option<string>, distributor: Option<string>)

  /** `str(v).strip() if pd.notna(v) else None` */
  function Clean(v: Option<string>): (r: Option<string>)
    ensures r.Some? <==> v.Some?
    ensures r.Some? ==> r.value == [] || (!IsSpace(r.value[0]) && !IsSpace(r.value[|r.value| - 1]))
    ensures r.Some? ==> exists a :: StrippedAt(v.value, a, r.value)
  {
    if v.Some? then Some(Trim(v.value)) else None
  }

  const UndefinedDistributor := "UNDEFINED DISTRIBUTOR"
  const UndefinedTitle := "Undefined title"

  /** `v or default` for an optional string. */
  function OrElse(v: Option<string>, default: string): (r: string)
    ensures Truthy(v) ==> r == v.value
    ensures !Truthy(v) ==> r == default
  {
    if Truthy(v) then v.value else default
  }

  /** Where the image of a category is taken from: find_image, else find_image_by_title_only. */
  function Locate(tree: SourceTree, title: string, distributor: string, folderType: string): Option<FileItem> {
    var r := Resolve(tree, title, distributor, folderType);
    if r.Some? then r else ResolveByTitleOnly(tree, title, distributor, folderType)
  }

  /**
   * A located image is a candidate file for the title, taken from the
   * distributor's listing; nothing is located only when both searches come
   * back empty.
   */
  lemma LocateSpec(tree: SourceTree, title: string, distributor: string, folderType: string)
    ensures var r := Locate(tree, title, distributor, folderType);
            && (r.None? <==> Resolve(tree, title, distributor, folderType).None?
                             && ResolveByTitleOnly(tree, title, distributor, folderType).None?)
            && (r.Some? ==> distributor in tree.distributors
                            && exists folder :: (distributor, folder) in tree.folders
                                                && r.value in tree.folders[(distributor, folder)])
            && (r.Some? ==> IsMatch(r.value, CleanString(title)))
            && (Resolve(tree, title, distributor, folderType).Some? ==> r == Resolve(tree, title, distributor, folderType))
  {
    ResolveSpec(tree, title, distributor, folderType);
    ResolveByTitleOnlySpec(tree, title, distributor, folderType);
  }

  /** What the loop body learns about one row before it changes anything. */
  datatype Examined =
    /** The title or the distributor is missing or blank: the row is filed under `bucket` as `entry`. */
    | Incomplete(bucket: string, entry: string)
    /** Both are present: the poster and still located for them. */
    | Looked(title: string, distributor: string, poster: Option<FileItem>, still: Option<FileItem>)

  /** The first half of the loop body: clean the two cells, then search for both images. */
  function Examine(tree: SourceTree, row: CatalogRow): Examined {
    var title, distributor := Clean(row.title), Clean(row.distributor);
    if !Truthy(title) || !Truthy(distributor) then
      Incomplete(OrElse(distributor, UndefinedDistributor), OrElse(title, UndefinedTitle))
    else
      Looked(title.value, distributor.value,
             Locate(tree, title.value, distributor.value, "Poster"),
             Locate(tree, title.value, distributor.value, "Still"))
  }

  function Examinations(tree: SourceTree, rows: seq<CatalogRow>): (es: seq<Examined>)
    ensures |es| == |rows| && forall i :: 0 <= i < |rows| ==> es[i] == Examine(tree, rows[i])
  {
    seq(|rows|, i requires 0 <= i < |rows| => Examine(tree, rows[i]))
  }

  /**
   * A row is searched exactly when both cells are non-blank once stripped,
   * and the search is keyed by the stripped cells; otherwise the row is filed
   * under its stripped distributor (or the placeholder) as its stripped title
   * (or the placeholder).
   */
  lemma ExamineSpec(tree: SourceTree, row: CatalogRow)
    ensures var e := Examine(tree, row);
            && (e.Looked? <==> row.title.Some? && row.distributor.Some?
                               && Trim(row.title.value) != "" && Trim(row.distributor.value) != "")
            && (e.Looked? ==> e.title == Trim(row.title.value) && e.distributor == Trim(row.distributor.value))
            && (e.Incomplete? ==>
                  && (e.bucket == UndefinedDistributor <==>
                        row.distributor.None? || Trim(row.distributor.value) in {"", UndefinedDistributor})
                  && (e.entry == UndefinedTitle <==>
                        row.title.None? || Trim(row.title.value) in {"", UndefinedTitle})
                  && e.bucket == (if row.distributor.Some? && Trim(row.distributor.value) != ""
                                  then Trim(row.distributor.value) else UndefinedDistributor)
                  && e.entry == (if row.title.Some? && Trim(row.title.value) != ""
                                 then Trim(row.title.value) else UndefinedTitle))
  {
  }

  /** What the run has built so far: the missing titles, the movie data, and the image manager's lists. */
  datatype RunState = RunState(notFound: seq<Dict.Entry<seq<string>>>, movieData: seq<Dict.Entry<Excel.Images>>,
                               copyErrors: seq<string>, copies: seq<Copy>)

  const Start := RunState([], [], [], [])

  /** `copy_image(path, ...) if path else None`: the file name when the copy succeeds. */
  function CopiedName(download: (FileItem, string, string) -> CopyOutcome, src: Option<FileItem>,
                      distributor: string, folderType: string): Option<string> {
    if src.Some? && download(src.value, distributor, folderType) == Copied then Some(src.value.name) else None
  }

  /** The image manager's lists after `copy_image(path, ...) if path else None`. */
  function AfterCopy(download: (FileItem, string, string) -> CopyOutcome, src: Option<FileItem>,
                     distributor: string, folderType: string, st: RunState): RunState {
    if src.None? then st
    else if download(src.value, distributor, folderType) == Copied
    then st.(copies := st.copies + [Copy(src.value.path, distributor, folderType, src.value.name)])
    else st.(copyErrors := st.copyErrors + [src.value.path])
  }

  /** The record `{"Poster": poster_name, "Still": still_name}` a searched row stores. */
  function Names(download: (FileItem, string, string) -> CopyOutcome, e: Examined): Excel.Images
    requires e.Looked?
  {
    Excel.Images(CopiedName(download, e.poster, e.distributor, "Poster"),
                 CopiedName(download, e.still, e.distributor, "Still"))
  }

  /** The second half of the loop body: what one examined row does to the run's state. */
  function Apply(download: (FileItem, string, string) -> CopyOutcome, st: RunState, e: Examined): RunState {
    match e
    case Incomplete(bucket, entry) => st.(notFound := Report.Record(st.notFound, bucket, entry))
    case Looked(title, distributor, poster, still) =>
      var names := Names(download, e);
      var copied := AfterCopy(download, still, distributor, "Still", AfterCopy(download, poster, distributor, "Poster", st));
      var withData := copied.(movieData := Dict.Set(st.movieData, title, names));
      if !Truthy(names.poster) && !Truthy(names.still) then withData.(notFound := Report.Record(st.notFound, distributor, title))
      else withData
  }

  /** The state after the loop has handled the examined rows `es`. */
  function Fold(download: (FileItem, string, string) -> CopyOutcome, es: seq<Examined>): RunState {
    if es == [] then Start else Apply(download, Fold(download, es[..|es| - 1]), es[|es| - 1])
  }

  lemma FoldSnoc(download: (FileItem, string, string) -> CopyOutcome, es: seq<Examined>, i: nat)
    requires i < |es|
    ensures Fold(download, es[..i + 1]) == Apply(download, Fold(download, es[..i]), es[i])
  {
    assert es[..i + 1][..i] == es[..i];
  }

  /** The state after the loop has handled `rows`. */
  function Run(tree: SourceTree, download: (FileItem, string, string) -> CopyOutcome, rows: seq<CatalogRow>): RunState {
    Fold(download, Examinations(tree, rows))
  }

  /** A row whose title ends up in the report: incomplete, or neither image copied. */
  predicate Missed(download: (FileItem, string, string) -> CopyOutcome, e: Examined) {
    e.Incomplete? || (!Truthy(Names(download, e).poster) && !Truthy(Names(download, e).still))
  }

  /** The bucket a missed row is filed under, and the entry it adds. */
  function Bucket(e: Examined): string {
    if e.Incomplete? then e.bucket else e.distributor
  }

  function Label(e: Examined): string {
    if e.Incomplete? then e.entry else e.title
  }

  /** Number of images located for a row: each one is copied once. */
  function Located(e: Examined): nat {
    if e.Incomplete? then 0
    else (if e.poster.Some? then 1 else 0) + (if e.still.Some? then 1 else 0)
  }

  /** What one row does to each part of the state. */
  lemma ApplySpec(download: (FileItem, string, string) -> CopyOutcome, st: RunState, e: Examined)
    ensures var next := Apply(download, st, e);
            && next.notFound == (if Missed(download, e) then Report.Record(st.notFound, Bucket(e), Label(e))
                                 else st.notFound)
            && next.movieData == (if e.Looked? then Dict.Set(st.movieData, e.title, Names(download, e))
                                  else st.movieData)
            && |next.copies| + |next.copyErrors| == |st.copies| + |st.copyErrors| + Located(e)
  {
    if e.Looked? {
      var afterPoster := AfterCopy(download, e.poster, e.distributor, "Poster", st);
      assert |afterPoster.copies| + |afterPoster.copyErrors| == |st.copies| + |st.copyErrors| + if e.poster.Some? then 1 else 0;
      var copied := AfterCopy(download, e.still, e.distributor, "Still", afterPoster);
      assert |copied.copies| + |copied.copyErrors| == |afterPoster.copies| + |afterPoster.copyErrors| + if e.still.Some? then 1 else 0;
      assert copied.notFound == st.notFound;
    }
  }

  /** One row changes the movie data only under its own title. */
  lemma MovieDataStep(download: (FileItem, string, string) -> CopyOutcome, st: RunState, e: Examined, title: string)
    ensures Dict.Get(Apply(download, st, e).movieData, title)
            == if e.Looked? && e.title == title then Some(Names(download, e)) else Dict.Get(st.movieData, title)
  {
    ApplySpec(download, st, e);
  }

  /** One row changes the missing titles only by adding its own entry to its own bucket. */
  lemma NotFoundStep(download: (FileItem, string, string) -> CopyOutcome, st: RunState, e: Examined, bucket: string)
    ensures Dict.Get(Apply(download, st, e).notFound, bucket)
            == if Missed(download, e) && Bucket(e) == bucket
               then Some(Dict.Get(st.notFound, bucket).GetOr([]) + [Label(e)])
               else Dict.Get(st.notFound, bucket)
  {
    ApplySpec(download, st, e);
    Report.RecordSpec(st.notFound, Bucket(e), Label(e));
  }

  function CountMissed(download: (FileItem, string, string) -> CopyOutcome, es: seq<Examined>): nat {
    if es == [] then 0 else CountMissed(download, es[..|es| - 1]) + if Missed(download, es[|es| - 1]) then 1 else 0
  }

  /**
   * The report's count of titles without images is the number of rows
   * missed (one entry per row, repeats included), and both dicts keep one
   * entry per key.
   */
  lemma {:induction false} TotalIsMissedRows(download: (FileItem, string, string) -> CopyOutcome, es: seq<Examined>)
    ensures Report.Total(Fold(download, es).notFound) == CountMissed(download, es)
    ensures Dict.DistinctKeys(Fold(download, es).notFound)
    ensures Dict.DistinctKeys(Fold(download, es).movieData)
  {
    if es != [] {
      var init, e := es[..|es| - 1], es[|es| - 1];
      TotalIsMissedRows(download, init);
      var st := Fold(download, init);
      ApplySpec(download, st, e);
      Report.RecordSpec(st.notFound, Bucket(e), Label(e));
    }
  }

  /** Some searched row carries `title`. */
  predicate Carries(es: seq<Examined>, title: string) {
    exists i :: 0 <= i < |es| && es[i].Looked? && es[i].title == title
  }

  lemma CarriesSnoc(es: seq<Examined>, title: string)
    requires es != []
    ensures var last := es[|es| - 1];
            Carries(es, title) <==> Carries(es[..|es| - 1], title) || (last.Looked? && last.title == title)
  {
    var init := es[..|es| - 1];
    if Carries(es, title) {
      var i :| 0 <= i < |es| && es[i].Looked? && es[i].title == title;
      if i < |init| {
        assert init[i] == es[i];
      }
    }
    if Carries(init, title) {
      var i :| 0 <= i < |init| && init[i].Looked? && init[i].title == title;
      assert es[i] == init[i];
    }
  }

  /** The movie data has an entry for a title exactly when some searched row carries that title. */
  lemma {:induction false} MovieDataKeys(download: (FileItem, string, string) -> CopyOutcome, es: seq<Examined>, title: string)
    ensures Dict.Get(Fold(download, es).movieData, title).Some? <==> Carries(es, title)
  {
    if es != [] {
      var init, e := es[..|es| - 1], es[|es| - 1];
      MovieDataKeys(download, init, title);
      MovieDataStep(download, Fold(download, init), e, title);
      CarriesSnoc(es, title);
    }
  }

  /** For a title some searched row carries, the movie data holds the names of the last such row. */
  lemma {:induction false} MovieDataLastRowWins(download: (FileItem, string, string) -> CopyOutcome, es: seq<Examined>, i: nat)
    requires i < |es| && es[i].Looked?
    requires forall j :: i < j < |es| && es[j].Looked? ==> es[j].title != es[i].title
    ensures Dict.Get(Fold(download, es).movieData, es[i].title) == Some(Names(download, es[i]))
  {
    var init, e := es[..|es| - 1], es[|es| - 1];
    MovieDataStep(download, Fold(download, init), e, es[i].title);
    if i < |es| - 1 {
      assert init[i] == es[i];
      assert forall j :: i < j < |init| ==> init[j] == es[j];
      MovieDataLastRowWins(download, init, i);
    }
  }

  /** Every missed row has its entry in its bucket of the missing titles. */
  lemma {:induction false} MissedRowsListed(download: (FileItem, string, string) -> CopyOutcome, es: seq<Examined>, i: nat)
    requires i < |es| && Missed(download, es[i])
    ensures var bucket := Dict.Get(Fold(download, es).notFound, Bucket(es[i]));
            bucket.Some? && Label(es[i]) in bucket.value
  {
    var init, e := es[..|es| - 1], es[|es| - 1];
    var k, x := Bucket(es[i]), Label(es[i]);
    var before := Dict.Get(Fold(download, init).notFound, k);
    NotFoundStep(download, Fold(download, init), e, k);
    if i < |es| - 1 {
      assert init[i] == es[i];
      MissedRowsListed(download, init, i);
      assert x in before.GetOr([]) + [Label(e)];
    } else {
      assert x in before.GetOr([]) + [Label(e)];
    }
  }

  /** Nothing lands among the missing titles but a missed row's entry, in its own bucket. */
  lemma {:induction false} OnlyMissedRowsListed(download: (FileItem, string, string) -> CopyOutcome, es: seq<Examined>,
                                                bucket: string, entry: string)
    requires Dict.Get(Fold(download, es).notFound, bucket).Some?
    requires entry in Dict.Get(Fold(download, es).notFound, bucket).value
    ensures exists i :: 0 <= i < |es| && Missed(download, es[i]) && Bucket(es[i]) == bucket && Label(es[i]) == entry
  {
    assert es != [];
    var init, e := es[..|es| - 1], es[|es| - 1];
    var before := Dict.Get(Fold(download, init).notFound, bucket);
    NotFoundStep(download, Fold(download, init), e, bucket);
    if !(Missed(download, e) && Bucket(e) == bucket && Label(e) == entry) {
      if Missed(download, e) && Bucket(e) == bucket {
        assert entry in before.GetOr([]) + [Label(e)];
        assert entry in before.GetOr([]);
      }
      assert before.Some? && entry in before.value;
      OnlyMissedRowsListed(download, init, bucket, entry);
      var i :| 0 <= i < |init| && Missed(download, init[i]) && Bucket(init[i]) == bucket && Label(init[i]) == entry;
      assert es[i] == init[i];
    }
  }

  function CountLocated(es: seq<Examined>): nat {
    if es == [] then 0 else CountLocated(es[..|es| - 1]) + Located(es[|es| - 1])
  }

  /** Every located image is either copied or listed as a copy error, once. */
  lemma {:induction false} EachCopyAccounted(download: (FileItem, string, string) -> CopyOutcome, es: seq<Examined>)
    ensures |Fold(download, es).copies| + |Fold(download, es).copyErrors| == CountLocated(es)
  {
    if es != [] {
      EachCopyAccounted(download, es[..|es| - 1]);
      ApplySpec(download, Fold(download, es[..|es| - 1]), es[|es| - 1]);
    }
  }

  /** A call of copy_image: the located file, the distributor and the category folder. */
  datatype Attempt = Attempt(src: FileItem, distributor: string, folderType: string)

  /** The copies a row attempts: its poster, then its still, each when it was located. */
  function Attempts(e: Examined): seq<Attempt> {
    if e.Incomplete? then []
    else (if e.poster.Some? then [Attempt(e.poster.value, e.distributor, "Poster")] else [])
         + (if e.still.Some? then [Attempt(e.still.value, e.distributor, "Still")] else [])
  }

  /** The copies the loop attempts, row by row. */
  function AllAttempts(es: seq<Examined>): seq<Attempt> {
    if es == [] then [] else AllAttempts(es[..|es| - 1]) + Attempts(es[|es| - 1])
  }

  /** The files written by the attempts that succeed, in order. */
  function CopiesOf(download: (FileItem, string, string) -> CopyOutcome, attempts: seq<Attempt>): seq<Copy> {
    if attempts == [] then []
    else
      var a := attempts[|attempts| - 1];
      CopiesOf(download, attempts[..|attempts| - 1])
      + if download(a.src, a.distributor, a.folderType) == Copied
        then [Copy(a.src.path, a.distributor, a.folderType, a.src.name)] else []
  }

  /** The source paths of the attempts that fail, in order. */
  function FailuresOf(download: (FileItem, string, string) -> CopyOutcome, attempts: seq<Attempt>): seq<string> {
    if attempts == [] then []
    else
      var a := attempts[|attempts| - 1];
      FailuresOf(download, attempts[..|attempts| - 1])
      + if download(a.src, a.distributor, a.folderType) == Copied then [] else [a.src.path]
  }

  lemma {:induction false} OutcomesConcat(download: (FileItem, string, string) -> CopyOutcome, a: seq<Attempt>, b: seq<Attempt>)
    ensures CopiesOf(download, a + b) == CopiesOf(download, a) + CopiesOf(download, b)
    ensures FailuresOf(download, a + b) == FailuresOf(download, a) + FailuresOf(download, b)
  {
    if b == [] {
      assert a + b == a;
    } else {
      var init, last := b[..|b| - 1], b[|b| - 1];
      var ab := a + b;
      assert ab[..|ab| - 1] == a + init;
      assert ab[|ab| - 1] == last;
      OutcomesConcat(download, a, init);
      var ca, ci := CopiesOf(download, a), CopiesOf(download, init);
      var fa, fi := FailuresOf(download, a), FailuresOf(download, init);
      var cl := if download(last.src, last.distributor, last.folderType) == Copied
                then [Copy(last.src.path, last.distributor, last.folderType, last.src.name)] else [];
      var fl := if download(last.src, last.distributor, last.folderType) == Copied then [] else [last.src.path];
      assert CopiesOf(download, ab) == (ca + ci) + cl;
      assert CopiesOf(download, b) == ci + cl;
      Report.Extend(ca, ci, ci + cl, cl);
      assert FailuresOf(download, ab) == (fa + fi) + fl;
      assert FailuresOf(download, b) == fi + fl;
      Report.Extend(fa, fi, fi + fl, fl);
    }
  }

  /** A single attempt writes its file when the copy succeeds, and otherwise records its source path. */
  lemma OutcomeOne(download: (FileItem, string, string) -> CopyOutcome, a: Attempt)
    ensures CopiesOf(download, [a]) == if download(a.src, a.distributor, a.folderType) == Copied
                                       then [Copy(a.src.path, a.distributor, a.folderType, a.src.name)] else []
    ensures FailuresOf(download, [a]) == if download(a.src, a.distributor, a.folderType) == Copied then [] else [a.src.path]
  {
    assert [a][..0] == [];
  }

  /** `copy_image(path, ...) if path else None` makes the copies and records the errors of its at most one attempt. */
  lemma AfterCopyOutcome(download: (FileItem, string, string) -> CopyOutcome, src: Option<FileItem>,
                         distributor: string, folderType: string, st: RunState)
    ensures var a := if src.Some? then [Attempt(src.value, distributor, folderType)] else [];
            && AfterCopy(download, src, distributor, folderType, st).copies == st.copies + CopiesOf(download, a)
            && AfterCopy(download, src, distributor, folderType, st).copyErrors == st.copyErrors + FailuresOf(download, a)
  {
    if src.Some? {
      OutcomeOne(download, Attempt(src.value, distributor, folderType));
    } else {
      assert st.copies + [] == st.copies && st.copyErrors + [] == st.copyErrors;
    }
  }

  /** A searched row changes the image manager's lists only by its two copies, poster first. */
  lemma LookedLists(download: (FileItem, string, string) -> CopyOutcome, st: RunState, e: Examined)
    requires e.Looked?
    ensures var copied := AfterCopy(download, e.still, e.distributor, "Still",
                                    AfterCopy(download, e.poster, e.distributor, "Poster", st));
            && Apply(download, st, e).copies == copied.copies
            && Apply(download, st, e).copyErrors == copied.copyErrors
  {
  }

  /** The copies one row makes and the copy errors it records, in the order of its attempts. */
  lemma ApplyCopies(download: (FileItem, string, string) -> CopyOutcome, st: RunState, e: Examined)
    ensures Apply(download, st, e).copies == st.copies + CopiesOf(download, Attempts(e))
    ensures Apply(download, st, e).copyErrors == st.copyErrors + FailuresOf(download, Attempts(e))
  {
    if e.Looked? {
      var p := if e.poster.Some? then [Attempt(e.poster.value, e.distributor, "Poster")] else [];
      var q := if e.still.Some? then [Attempt(e.still.value, e.distributor, "Still")] else [];
      assert Attempts(e) == p + q;
      var afterPoster := AfterCopy(download, e.poster, e.distributor, "Poster", st);
      LookedLists(download, st, e);
      AfterCopyOutcome(download, e.poster, e.distributor, "Poster", st);
      AfterCopyOutcome(download, e.still, e.distributor, "Still", afterPoster);
      OutcomesConcat(download, p, q);
      Report.Extend(st.copies, CopiesOf(download, p), CopiesOf(download, p + q), CopiesOf(download, q));
      Report.Extend(st.copyErrors, FailuresOf(download, p), FailuresOf(download, p + q), FailuresOf(download, q));
    } else {
      assert st.copies + [] == st.copies && st.copyErrors + [] == st.copyErrors;
    }
  }

  /**
   * Each located image is copied or listed as a copy error: the copies are
   * the attempts that succeed and the copy errors the source paths of those
   * that fail, both in the order the loop attempts them.
   */
  lemma {:induction false} CopiesInOrder(download: (FileItem, string, string) -> CopyOutcome, es: seq<Examined>)
    ensures Fold(download, es).copies == CopiesOf(download, AllAttempts(es))
    ensures Fold(download, es).copyErrors == FailuresOf(download, AllAttempts(es))
  {
    if es != [] {
      var init, e := es[..|es| - 1], es[|es| - 1];
      CopiesInOrder(download, init);
      ApplyCopies(download, Fold(download, init), e);
      OutcomesConcat(download, AllAttempts(init), Attempts(e));
    }
  }

  /**
   * The body of the loop for a row with both cells present: the two
   * searches, the two copies, the record stored under the title, and the
   * title noted as missing when neither copy produced a name.
   */
  method SourceRow(manager: ImageManager, title: string, distributor: string,
                   movieData: seq<Dict.Entry<Excel.Images>>, notFound: seq<Dict.Entry<seq<string>>>)
    returns (movieData': seq<Dict.Entry<Excel.Images>>, notFound': seq<Dict.Entry<seq<string>>>)
    modifies manager`copyErrors, manager`copies
    ensures var e := Looked(title, distributor, Locate(manager.source, title, distributor, "Poster"),
                            Locate(manager.source, title, distributor, "Still"));
            RunState(notFound', movieData', manager.copyErrors, manager.copies)
              == Apply(manager.download, RunState(notFound, movieData, old(manager.copyErrors), old(manager.copies)), e)
  {
    var posterPath := manager.FindImage(title, distributor, "Poster");
    if posterPath.None? {
      posterPath := manager.FindImageByTitleOnly(title, distributor, "Poster");
    }
    var stillPath := manager.FindImage(title, distributor, "Still");
    if stillPath.None? {
      stillPath := manager.FindImageByTitleOnly(title, distributor, "Still");
    }
    var posterName: Option<string> := None;
    if posterPath.Some? {
      posterName := manager.CopyImage(posterPath.value, distributor, "Poster");
    }
    var stillName: Option<string> := None;
    if stillPath.Some? {
      stillName := manager.CopyImage(stillPath.value, distributor, "Still");
    }
    movieData' := Dict.Set(movieData, title, Excel.Images(posterName, stillName));
    notFound' := notFound;
    if !Truthy(posterName) && !Truthy(stillName) {
      notFound' := Report.Record(notFound, distributor, title);
    }
  }

  /** One pass of the loop over the rows: the row is examined, then applied to the state. */
  method ProcessRow(manager: ImageManager, row: CatalogRow,
                    movieData: seq<Dict.Entry<Excel.Images>>, notFound: seq<Dict.Entry<seq<string>>>)
    returns (movieData': seq<Dict.Entry<Excel.Images>>, notFound': seq<Dict.Entry<seq<string>>>)
    modifies manager`copyErrors, manager`copies
    ensures RunState(notFound', movieData', manager.copyErrors, manager.copies)
            == Apply(manager.download, RunState(notFound, movieData, old(manager.copyErrors), old(manager.copies)),
                     Examine(manager.source, row))
  {
    var title, distributor := Clean(row.title), Clean(row.distributor);
    if !Truthy(title) || !Truthy(distributor) {
      movieData' := movieData;
      notFound' := Report.Record(notFound, OrElse(distributor, UndefinedDistributor), OrElse(title, UndefinedTitle));
    } else {
      movieData', notFound' := SourceRow(manager, title.value, distributor.value, movieData, notFound);
    }
  }

  /** The loop of process_images over the rows, run by a fresh image manager. */
  method ProcessRows(manager: ImageManager, catalogue: seq<CatalogRow>)
    returns (movieData: seq<Dict.Entry<Excel.Images>>, notFound: seq<Dict.Entry<seq<string>>>)
    requires manager.copyErrors == [] && manager.copies == []
    modifies manager`copyErrors, manager`copies
    ensures RunState(notFound, movieData, manager.copyErrors, manager.copies)
            == Run(manager.source, manager.download, catalogue)
  {
    movieData, notFound := [], [];
    ghost var es := Examinations(manager.source, catalogue);
    var i := 0;
    while i < |catalogue|
      invariant 0 <= i <= |catalogue|
      invariant RunState(notFound, movieData, manager.copyErrors, manager.copies) == Fold(manager.download, es[..i])
    {
      FoldSnoc(manager.download, es, i);
      movieData, notFound := ProcessRow(manager, catalogue[i], movieData, notFound);
      i := i + 1;
    }
    assert es[..i] == es;
  }

  /**
   * process_images, from the rows read from the "Movies" sheet to the
   * updated sheet and the report's lines. The tree under the source
   * directory, the outcome of each copy and the contact rows are inputs.
   */
  method ProcessImages(catalogue: seq<CatalogRow>, contacts: seq<Report.Contact>, sheet: array<Excel.Row>,
                       tree: SourceTree, download: (FileItem, string, string) -> CopyOutcome)
    returns (lines: seq<Report.Line>)
    modifies sheet
    ensures var st := Run(tree, download, catalogue);
            && sheet[..] == Excel.ApplyAll(old(sheet[..]), Excel.TitleIndex(old(sheet[..])), st.movieData)
            && lines == Report.ReportLines(st.notFound, contacts, st.copyErrors)
  {
    var manager := new ImageManager(tree, download);
    var excel := new Excel.ExcelHandler(sheet);
    var movieData, notFound := ProcessRows(manager, catalogue);
    excel.UpdateImages(movieData);
    lines := Report.GenerateReport(notFound, contacts, manager.copyErrors);
  }
}
