/**
 * ImageManager: finds the poster or still of a title in a distributor's
 * folder and copies it into the download folder, remembering failed copies.
 * The source tree is given as data: for each existing distributor folder the
 * children that `iterdir` lists, and for each existing folder below it the
 * paths that `rglob("*")` yields, in the order the file system yields them.
 */
module ImageManagement {
  import opened Optional
  import opened Text

  /** A child of a distributor folder: its name and whether it is a directory. */
  datatype Child = Child(name: string, isDir: bool)

  /** A path yielded by `rglob`: the full path (`str(p)`), its last component (`p.name`) and `p.is_file()`. */
  datatype FileItem = FileItem(path: string, name: string, isFile: bool)

  /**
   * `distributors` holds the distributor folders that exist, with their
   * children; `folders[(d, f)]` is present when `source_dir/d/f` exists and
   * lists everything below it.
   */
  datatype SourceTree = SourceTree(
    distributors: map<string, seq<Child>>,
    folders: map<(string, string), seq<FileItem>>)

  /** A child that the poster-folder scan picks: a directory whose name contains "Poster" (case-sensitive). */
  predicate IsPosterFolder(c: Child) {
    Contains(c.name, "Poster") && c.isDir
  }

  /** The children that are poster folders, in listing order. */
  function PosterFolders(cs: seq<Child>): (r: seq<Child>)
    ensures |r| <= |cs|
    ensures forall c :: c in r <==> c in cs && IsPosterFolder(c)
  {
    if cs == [] then [] else (if IsPosterFolder(cs[0]) then [cs[0]] else []) + PosterFolders(cs[1..])
  }

  /** The distributor keeps one shared horizontal-poster folder for every category. */
  predicate UsesHorizontal(cs: seq<Child>) {
    var p := PosterFolders(cs);
    |p| == 1 && Contains(p[0].name, "Horizontal Posters")
  }

  /** The folder `find_image` searches: the single horizontal-poster folder if there is one, else the requested category. */
  function TargetFolder(cs: seq<Child>, folderType: string): string {
    if UsesHorizontal(cs) then PosterFolders(cs)[0].name else folderType
  }

  /** Child `i` is a poster folder and no other child is. */
  predicate OnlyPosterFolder(cs: seq<Child>, i: int) {
    && 0 <= i < |cs| && IsPosterFolder(cs[i])
    && forall j :: 0 <= j < |cs| && j != i ==> !IsPosterFolder(cs[j])
  }

  lemma {:induction false} NoPosterFolders(cs: seq<Child>)
    requires forall j :: 0 <= j < |cs| ==> !IsPosterFolder(cs[j])
    ensures PosterFolders(cs) == []
  {
    if cs != [] {
      assert forall j :: 0 <= j < |cs| - 1 ==> cs[1..][j] == cs[j + 1];
      NoPosterFolders(cs[1..]);
    }
  }

  /** With exactly one poster folder among the children, the scan lists just that folder. */
  lemma {:induction false} PosterFoldersOf(cs: seq<Child>, i: int)
    requires OnlyPosterFolder(cs, i)
    ensures PosterFolders(cs) == [cs[i]]
  {
    assert forall j :: 0 <= j < |cs| - 1 ==> cs[1..][j] == cs[j + 1];
    if i == 0 {
      NoPosterFolders(cs[1..]);
    } else {
      assert !IsPosterFolder(cs[0]);
      assert OnlyPosterFolder(cs[1..], i - 1);
      PosterFoldersOf(cs[1..], i - 1);
    }
  }

  /** When the scan lists a single folder, exactly one child is a poster folder. */
  lemma {:induction false} SinglePosterFolder(cs: seq<Child>)
    requires |PosterFolders(cs)| == 1
    ensures exists i :: OnlyPosterFolder(cs, i)
  {
    var rest := cs[1..];
    assert forall j :: 0 <= j < |cs| - 1 ==> rest[j] == cs[j + 1];
    if IsPosterFolder(cs[0]) {
      assert PosterFolders(rest) == [];
      forall j | 1 <= j < |cs|
        ensures !IsPosterFolder(cs[j])
      {
        assert cs[j] == rest[j - 1];
      }
      assert OnlyPosterFolder(cs, 0);
    } else {
      SinglePosterFolder(rest);
      var i :| OnlyPosterFolder(rest, i);
      assert OnlyPosterFolder(cs, i + 1);
    }
  }

  /**
   * The folder-selection rule over the listed children: the horizontal-poster
   * folder is searched exactly when one child, and only one, is a directory
   * with "Poster" in its name, and that name contains "Horizontal Posters";
   * the search then goes to that child, whatever category was asked for, and
   * otherwise to the requested category's folder.
   */
  lemma HorizontalRule(cs: seq<Child>, folderType: string)
    ensures UsesHorizontal(cs) <==> exists i :: OnlyPosterFolder(cs, i) && Contains(cs[i].name, "Horizontal Posters")
    ensures forall i :: OnlyPosterFolder(cs, i) && Contains(cs[i].name, "Horizontal Posters") ==>
                          TargetFolder(cs, folderType) == cs[i].name
    ensures !UsesHorizontal(cs) ==> TargetFolder(cs, folderType) == folderType
  {
    forall i | OnlyPosterFolder(cs, i)
      ensures PosterFolders(cs) == [cs[i]]
    {
      PosterFoldersOf(cs, i);
    }
    if |PosterFolders(cs)| == 1 {
      SinglePosterFolder(cs);
    }
  }

  /** A listed path is a candidate for a title key when it is a file whose cleaned name contains the key. */
  predicate IsMatch(f: FileItem, key: string) {
    f.isFile && Contains(CleanString(f.name), key)
  }

  /** `matching_files`: the candidates of a listing, in listing order. */
  function Matches(files: seq<FileItem>, key: string): seq<FileItem> {
    if files == [] then []
    else (if IsMatch(files[0], key) then [files[0]] else []) + Matches(files[1..], key)
  }

  /** Extending the listing by one path extends the candidates by that path when it matches. */
  lemma {:induction false} MatchesSnoc(files: seq<FileItem>, key: string)
    requires files != []
    ensures var last := files[|files| - 1];
            Matches(files, key) == Matches(files[..|files| - 1], key) + if IsMatch(last, key) then [last] else []
  {
    if |files| > 1 {
      MatchesSnoc(files[1..], key);
      assert files[1..][..|files| - 2] == files[..|files| - 1][1..];
    }
  }

  /** The candidates are exactly the listed files that match, and there are none only when no listed file matches. */
  lemma {:induction false} MatchesSpec(files: seq<FileItem>, key: string)
    ensures forall f :: f in Matches(files, key) <==> f in files && IsMatch(f, key)
    ensures Matches(files, key) == [] <==> forall i :: 0 <= i < |files| ==> !IsMatch(files[i], key)
  {
    if files != [] {
      MatchesSpec(files[1..], key);
      assert files == [files[0]] + files[1..];
    }
  }

  /** Linear search: the first position whose name contains `tag`, or `|ms|`. */
  function FirstTagged(ms: seq<FileItem>, tag: string): (i: nat)
    ensures i <= |ms|
    ensures i < |ms| ==> Contains(ms[i].name, tag)
    ensures forall j :: 0 <= j < i ==> !Contains(ms[j].name, tag)
  {
    if ms == [] then 0 else if Contains(ms[0].name, tag) then 0 else 1 + FirstTagged(ms[1..], tag)
  }

  /** The tie-break: the first candidate tagged "(1)", else the first tagged "(2)", else the first candidate. */
  function Preferred(ms: seq<FileItem>): Option<FileItem> {
    var one := FirstTagged(ms, "(1)");
    var two := FirstTagged(ms, "(2)");
    if one < |ms| then Some(ms[one])
    else if two < |ms| then Some(ms[two])
    else if ms != [] then Some(ms[0])
    else None
  }

  /** What `find_image(title, distributor, folderType)` returns. */
  function Resolve(tree: SourceTree, title: string, distributor: string, folderType: string): Option<FileItem> {
    if distributor !in tree.distributors then None
    else
      var target := TargetFolder(tree.distributors[distributor], folderType);
      if (distributor, target) !in tree.folders then None
      else Preferred(Matches(tree.folders[(distributor, target)], CleanString(title)))
  }

  /**
   * Reference search over the raw listing: the first path that is a candidate
   * and whose name contains `tag`, or `|files|`. With the empty tag it is the
   * first candidate.
   */
  function FirstTaggedMatch(files: seq<FileItem>, key: string, tag: string): (i: nat)
    ensures i <= |files|
    ensures i < |files| ==> IsTaggedMatch(files[i], key, tag)
    ensures forall j :: 0 <= j < i ==> !IsTaggedMatch(files[j], key, tag)
  {
    if files == [] then 0
    else if IsTaggedMatch(files[0], key, tag) then 0
    else 1 + FirstTaggedMatch(files[1..], key, tag)
  }

  /** A candidate for the key whose name contains `tag`. */
  predicate IsTaggedMatch(f: FileItem, key: string, tag: string) {
    IsMatch(f, key) && Contains(f.name, tag)
  }

  /** What `find_image_by_title_only(title, distributor, folderType)` returns. */
  function ResolveByTitleOnly(tree: SourceTree, title: string, distributor: string, folderType: string): Option<FileItem> {
    if distributor !in tree.distributors || (distributor, folderType) !in tree.folders then None
    else
      var files := tree.folders[(distributor, folderType)];
      var i := FirstTaggedMatch(files, CleanString(title), "");
      if i < |files| then Some(files[i]) else None
  }

  /** Searching the candidates for a tag finds the first tagged candidate of the whole listing. */
  lemma {:induction false} MatchesFirstTagged(files: seq<FileItem>, key: string, tag: string)
    ensures var ms := Matches(files, key);
            var i := FirstTagged(ms, tag);
            var k := FirstTaggedMatch(files, key, tag);
            (i < |ms| <==> k < |files|) && (i < |ms| ==> ms[i] == files[k])
  {
    if files != [] {
      var ms, rest := Matches(files, key), Matches(files[1..], key);
      var i', k' := FirstTagged(rest, tag), FirstTaggedMatch(files[1..], key, tag);
      MatchesFirstTagged(files[1..], key, tag);
      if IsMatch(files[0], key) {
        assert ms == [files[0]] + rest;
        if Contains(files[0].name, tag) {
          assert IsTaggedMatch(files[0], key, tag);
          assert FirstTaggedMatch(files, key, tag) == 0;
          assert FirstTagged(ms, tag) == 0;
        } else {
          assert !IsTaggedMatch(files[0], key, tag);
          assert FirstTaggedMatch(files, key, tag) == 1 + k';
          assert ms[1..] == rest;
          assert FirstTagged(ms, tag) == 1 + i';
          if i' < |rest| {
            assert ms[1 + i'] == rest[i'] == files[1..][k'] == files[1 + k'];
          }
        }
      } else {
        assert !IsTaggedMatch(files[0], key, tag);
        assert FirstTaggedMatch(files, key, tag) == 1 + k';
        assert ms == rest;
        if i' < |rest| {
          assert files[1..][k'] == files[1 + k'];
        }
      }
    }
  }

  /**
   * The two-phase search of `find_image` (collect the candidates, then scan
   * them for "(1)", then for "(2)") picks the same file as scanning the listing
   * itself for the first tagged candidate, tag by tag, ending with the first
   * candidate of all.
   */
  lemma PreferredByListing(files: seq<FileItem>, key: string)
    ensures var one := FirstTaggedMatch(files, key, "(1)");
            var two := FirstTaggedMatch(files, key, "(2)");
            var any := FirstTaggedMatch(files, key, "");
            Preferred(Matches(files, key)) ==
              if one < |files| then Some(files[one])
              else if two < |files| then Some(files[two])
              else if any < |files| then Some(files[any])
              else None
  {
    var ms := Matches(files, key);
    MatchesFirstTagged(files, key, "(1)");
    MatchesFirstTagged(files, key, "(2)");
    MatchesFirstTagged(files, key, "");
    if ms != [] {
      ContainsEmpty(ms[0].name);
    }
  }

  /**
   * `find_image` returns nothing exactly when the distributor folder or the
   * chosen folder is missing or no file there is a candidate; whatever it
   * returns is a candidate file of the chosen folder; and when a candidate is
   * tagged "(1)" it returns the first such, otherwise the first tagged "(2)",
   * otherwise the first candidate.
   */
  lemma ResolveSpec(tree: SourceTree, title: string, distributor: string, folderType: string)
    ensures var r := Resolve(tree, title, distributor, folderType);
            var key := CleanString(title);
            if distributor !in tree.distributors then r.None?
            else
              var target := TargetFolder(tree.distributors[distributor], folderType);
              if (distributor, target) !in tree.folders then r.None?
              else
                var files := tree.folders[(distributor, target)];
                var one := FirstTaggedMatch(files, key, "(1)");
                var two := FirstTaggedMatch(files, key, "(2)");
                && (r.None? <==> forall i :: 0 <= i < |files| ==> !IsMatch(files[i], key))
                && (r.Some? ==> r.value in files && IsMatch(r.value, key))
                && (one < |files| ==> r == Some(files[one]))
                && (one == |files| && two < |files| ==> r == Some(files[two]))
                && (one == |files| && two == |files| && r.Some? ==>
                      r == Some(files[FirstTaggedMatch(files, key, "")]))
  {
    if distributor in tree.distributors {
      var target := TargetFolder(tree.distributors[distributor], folderType);
      if (distributor, target) in tree.folders {
        var files := tree.folders[(distributor, target)];
        PreferredByListing(files, CleanString(title));
        MatchesSpec(files, CleanString(title));
      }
    }
  }

  /**
   * The horizontal-poster folder is searched whatever category is asked for,
   * so both categories resolve to the same file; without it the requested
   * category's folder is searched.
   */
  lemma HorizontalServesEveryCategory(tree: SourceTree, title: string, distributor: string, a: string, b: string)
    requires distributor in tree.distributors
    ensures var cs := tree.distributors[distributor];
            (UsesHorizontal(cs) ==> Resolve(tree, title, distributor, a) == Resolve(tree, title, distributor, b))
            && (!UsesHorizontal(cs) ==> TargetFolder(cs, a) == a)
  {
  }

  /** An empty title key makes every file of the searched folder a candidate. */
  lemma EmptyKeyMatchesEveryFile(f: FileItem, title: string)
    requires CleanString(title) == "" && f.isFile
    ensures IsMatch(f, CleanString(title))
  {
    ContainsEmpty(CleanString(f.name));
  }

  /**
   * `find_image_by_title_only` returns the first candidate of
   * `distributor/folderType`, ignoring the tags, or nothing when a folder is
   * missing or there is no candidate.
   */
  lemma ResolveByTitleOnlySpec(tree: SourceTree, title: string, distributor: string, folderType: string)
    ensures var r := ResolveByTitleOnly(tree, title, distributor, folderType);
            var key := CleanString(title);
            if distributor !in tree.distributors || (distributor, folderType) !in tree.folders then r.None?
            else
              var files := tree.folders[(distributor, folderType)];
              && (r.None? <==> forall i :: 0 <= i < |files| ==> !IsMatch(files[i], key))
              && (r.Some? ==> exists i :: 0 <= i < |files| && r.value == files[i] && IsMatch(files[i], key)
                                && forall j :: 0 <= j < i ==> !IsMatch(files[j], key))
  {
    if distributor in tree.distributors && (distributor, folderType) in tree.folders {
      var files := tree.folders[(distributor, folderType)];
      var key := CleanString(title);
      var i := FirstTaggedMatch(files, key, "");
      forall j | 0 <= j < |files|
        ensures Contains(files[j].name, "")
      {
        ContainsEmpty(files[j].name);
      }
    }
  }

  /**
   * The title-only fallback can only find a file that `find_image` missed when
   * `find_image` searched the horizontal-poster folder instead of the
   * requested category.
   */
  lemma FallbackOnlyAfterHorizontal(tree: SourceTree, title: string, distributor: string, folderType: string)
    requires Resolve(tree, title, distributor, folderType).None?
    requires ResolveByTitleOnly(tree, title, distributor, folderType).Some?
    ensures distributor in tree.distributors && UsesHorizontal(tree.distributors[distributor])
  {
    var cs := tree.distributors[distributor];
    if !UsesHorizontal(cs) {
      var files := tree.folders[(distributor, folderType)];
      var key := CleanString(title);
      ResolveSpec(tree, title, distributor, folderType);
      ResolveByTitleOnlySpec(tree, title, distributor, folderType);
    }
  }

  /** How one attempt to copy a file ends: copied, refused for permission, or failed otherwise. */
  datatype CopyOutcome = Copied | PermissionDenied | CopyFailed

  /** A file written as `download_dir/distributor/folderType/fileName`, copied from `source`. */
  datatype Copy = Copy(source: string, distributor: string, folderType: string, fileName: string)

  /** The loop of find_image that gathers `matching_files`, in listing order. */
  method CollectMatches(files: seq<FileItem>, key: string) returns (matching: seq<FileItem>)
    ensures matching == Matches(files, key)
  {
    matching := [];
    var i := 0;
    while i < |files|
      invariant 0 <= i <= |files|
      invariant matching == Matches(files[..i], key)
    {
      MatchesSnoc(files[..i + 1], key);
      assert files[..i + 1][..i] == files[..i];
      if IsMatch(files[i], key) {
        matching := matching + [files[i]];
      }
      i := i + 1;
    }
    assert files[..i] == files;
  }

  /** The loops of find_image over the priority tags, then the fallback to the first candidate. */
  method PickPreferred(matching: seq<FileItem>) returns (r: Option<FileItem>)
    ensures r == Preferred(matching)
  {
    var tags := ["(1)", "(2)"];
    assert tags[0] == "(1)" && tags[1] == "(2)";
    var t := 0;
    while t < |tags|
      invariant 0 <= t <= |tags|
      invariant forall u :: 0 <= u < t ==> FirstTagged(matching, tags[u]) == |matching|
    {
      var j := 0;
      while j < |matching|
        invariant 0 <= j <= |matching|
        invariant forall k :: 0 <= k < j ==> !Contains(matching[k].name, tags[t])
      {
        if Contains(matching[j].name, tags[t]) {
          assert FirstTagged(matching, tags[t]) == j;
          if t == 1 {
            assert FirstTagged(matching, "(1)") == |matching|;
          }
          return Some(matching[j]);
        }
        j := j + 1;
      }
      t := t + 1;
    }
    if matching != [] {
      return Some(matching[0]);
    }
    return None;
  }

  class ImageManager {
    /** The tree under `source_dir`. */
    const source: SourceTree
    /** How copying a file into `download_dir/distributor/folderType` ends. */
    const download: (FileItem, string, string) -> CopyOutcome
    /** The source paths whose copy failed, in order. */
    var copyErrors: seq<string>
    /** The files written into the download tree, in order. */
    var copies: seq<Copy>

    constructor (source: SourceTree, download: (FileItem, string, string) -> CopyOutcome)
      ensures this.source == source && this.download == download
      ensures copyErrors == [] && copies == []
    {
      this.source := source;
      this.download := download;
      copyErrors := [];
      copies := [];
    }

    /** find_image */
    method FindImage(title: string, distributor: string, folderType: string) returns (r: Option<FileItem>)
      ensures r == Resolve(source, title, distributor, folderType)
    {
      if distributor !in source.distributors {
        return None;
      }
      var children := source.distributors[distributor];
      var posterFolders := PosterFolders(children);
      var target := if |posterFolders| == 1 && Contains(posterFolders[0].name, "Horizontal Posters")
                    then posterFolders[0].name else folderType;
      assert target == TargetFolder(children, folderType);
      if (distributor, target) !in source.folders {
        return None;
      }
      var files := source.folders[(distributor, target)];
      var matching := CollectMatches(files, CleanString(title));
      r := PickPreferred(matching);
    }

    /** find_image_by_title_only */
    method FindImageByTitleOnly(title: string, distributor: string, folderType: string) returns (r: Option<FileItem>)
      ensures r == ResolveByTitleOnly(source, title, distributor, folderType)
      ensures r.Some? ==> r.value.isFile && Contains(CleanString(r.value.name), CleanString(title))
    {
      if distributor !in source.distributors {
        return None;
      }
      if (distributor, folderType) !in source.folders {
        return None;
      }
      var files := source.folders[(distributor, folderType)];
      var i := 0;
      while i < |files|
        invariant 0 <= i <= |files|
        invariant forall j :: 0 <= j < i ==> !IsMatch(files[j], CleanString(title))
      {
        if IsMatch(files[i], CleanString(title)) {
          ContainsEmpty(files[i].name);
          assert FirstTaggedMatch(files, CleanString(title), "") == i;
          return Some(files[i]);
        }
        i := i + 1;
      }
      return None;
    }

    /**
     * copy_image: on success the file lands in the download tree and its name
     * is returned; on either kind of failure nothing is returned and the source
     * path is appended to `copyErrors`.
     */
    method CopyImage(src: FileItem, distributor: string, folderType: string) returns (r: Option<string>)
      modifies this`copyErrors, this`copies
      ensures download(src, distributor, folderType) == Copied ==>
                r == Some(src.name) && copyErrors == old(copyErrors)
                && copies == old(copies) + [Copy(src.path, distributor, folderType, src.name)]
      ensures download(src, distributor, folderType) != Copied ==>
                r == None && copyErrors == old(copyErrors) + [src.path] && copies == old(copies)
    {
      match download(src, distributor, folderType)
      case Copied =>
        copies := copies + [Copy(src.path, distributor, folderType, src.name)];
        return Some(src.name);
      case PermissionDenied =>
        copyErrors := copyErrors + [src.path];
        return None;
      case CopyFailed =>
        copyErrors := copyErrors + [src.path];
        return None;
    }
  }
}
