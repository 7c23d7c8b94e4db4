/**
 * The file-handling operations the Video model mixes in: pulling upload
 * handles out of an attribute map, the path a file is stored under, and the
 * names of the files an update supersedes.
 */
module UploadFiles {

  type FileName = string
  type Path = string

  /** An uploaded file handle; it is stored under its `hashName`. */
  datatype UploadedFile = UploadedFile(hashName: FileName)

  /** A value of an attribute map: null, a scalar, an array of ids or an upload handle. */
  datatype Value = Null | Scalar(text: string) | IdList(ids: seq<string>) | Upload(file: UploadedFile)

  type Attributes = map<string, Value>

  /** PHP truthiness of a value: null, "" and "0" and the empty array are false. */
  predicate Truthy(v: Value) {
    match v
    case Null => false
    case Scalar(s) => s != "" && s != "0"
    case IdList(ids) => ids != []
    case Upload(_) => true
  }

  /** The path of file `name` inside directory `dir`: "{dir}/{name}". */
  function RelativePath(dir: string, name: FileName): (p: Path)
    ensures |p| == |dir| + 1 + |name|
    ensures p[..|dir|] == dir && p[|dir|] == '/' && p[|dir| + 1..] == name
  {
    dir + "/" + name
  }

  /**
   * Directories named by ids without a '/' never share a path: two paths are
   * equal exactly when both the directory and the name are.
   */
  lemma PathsDoNotCollide(d1: string, n1: FileName, d2: string, n2: FileName)
    requires '/' !in d1 && '/' !in d2
    ensures RelativePath(d1, n1) == RelativePath(d2, n2) <==> d1 == d2 && n1 == n2
  {
    var p1, p2 := RelativePath(d1, n1), RelativePath(d2, n2);
    if p1 == p2 {
      forall k | 0 <= k < |d1| ensures p1[k] == d1[k] {
        assert p1[..|d1|][k] == p1[k];
      }
      forall k | 0 <= k < |d2| ensures p2[k] == d2[k] {
        assert p2[..|d2|][k] == p2[k];
      }
      assert forall k :: 0 <= k < |d1| ==> p1[k] != '/';
      assert forall k :: 0 <= k < |d2| ==> p1[k] != '/';
      assert p1[|d1|] == '/' && p1[|d2|] == '/';
      assert |d1| == |d2|;
    }
  }

  /** The paths of `names` inside directory `dir`. */
  function Paths(dir: string, names: seq<FileName>): set<Path> {
    set n | n in names :: RelativePath(dir, n)
  }

  /** A name's path is among the paths of a list of names exactly when the name is in the list. */
  lemma InPaths(dir: string, names: seq<FileName>, name: FileName)
    requires '/' !in dir
    ensures RelativePath(dir, name) in Paths(dir, names) <==> name in names
  {
    if RelativePath(dir, name) in Paths(dir, names) {
      var n :| n in names && RelativePath(dir, n) == RelativePath(dir, name);
      PathsDoNotCollide(dir, n, dir, name);
    }
  }

  /** The stored names of a list of handles. */
  function Names(files: seq<UploadedFile>): (r: seq<FileName>)
    ensures |r| == |files|
    ensures forall i :: 0 <= i < |files| ==> r[i] == files[i].hashName
  {
    seq(|files|, i requires 0 <= i < |files| => files[i].hashName)
  }

  /**
   * The handles `extractFiles` returns: for each file slot, in slot order,
   * the handle it holds (a slot listed twice counts once).
   */
  function UploadsIn(fields: seq<string>, attrs: Attributes): (r: seq<UploadedFile>)
    ensures |r| <= |fields|
  {
    if fields == [] then []
    else
      var prefix, f := fields[..|fields| - 1], fields[|fields| - 1];
      UploadsIn(prefix, attrs) + (if f in attrs && attrs[f].Upload? && f !in prefix then [attrs[f].file] else [])
  }

  /**
   * The handles extracted are exactly the handles held by file slots: each
   * comes from a slot, and no slot's handle is missed.
   */
  lemma {:induction false} UploadsInExactly(fields: seq<string>, attrs: Attributes)
    ensures forall x :: x in UploadsIn(fields, attrs) ==> exists f :: f in fields && f in attrs && attrs[f] == Upload(x)
    ensures forall f :: f in fields && f in attrs && attrs[f].Upload? ==> attrs[f].file in UploadsIn(fields, attrs)
  {
    if fields != [] {
      var prefix, last := fields[..|fields| - 1], fields[|fields| - 1];
      UploadsInExactly(prefix, attrs);
      assert fields == prefix + [last];
    }
  }

  /** The attribute map after `extractFiles`: every upload in a file slot replaced by its name. */
  function Rewrite(fields: seq<string>, attrs: Attributes): (r: Attributes)
    ensures r.Keys == attrs.Keys
  {
    map k | k in attrs :: if k in fields && attrs[k].Upload? then Scalar(attrs[k].file.hashName) else attrs[k]
  }

  /**
   * After the rewrite no file slot holds a handle, each handle slot holds its
   * name, and every other entry is as it was.
   */
  lemma RewriteEntries(fields: seq<string>, attrs: Attributes)
    ensures |Rewrite(fields, attrs)| == |attrs|
    ensures forall k :: k in Rewrite(fields, attrs) && k in fields ==> !Rewrite(fields, attrs)[k].Upload?
    ensures forall k :: k in attrs && (k !in fields || !attrs[k].Upload?) ==> Rewrite(fields, attrs)[k] == attrs[k]
    ensures forall k :: k in attrs && k in fields && attrs[k].Upload? ==> Rewrite(fields, attrs)[k] == Scalar(attrs[k].file.hashName)
  {
    assert Rewrite(fields, attrs).Keys == attrs.Keys;
  }

  /**
   * extractFiles: returns the upload handles of the file slots, in slot
   * order, and the attribute map with each of them replaced by its hashName;
   * strings and other keys are left as they are.
   */
  method ExtractFiles(fields: seq<string>, attrs: Attributes) returns (rewritten: Attributes, files: seq<UploadedFile>)
    ensures rewritten == Rewrite(fields, attrs)
    ensures files == UploadsIn(fields, attrs)
  {
    rewritten, files := attrs, [];
    var i := 0;
    assert Rewrite(fields[..0], attrs) == attrs;
    while i < |fields|
      invariant 0 <= i <= |fields|
      invariant rewritten == Rewrite(fields[..i], attrs)
      invariant files == UploadsIn(fields[..i], attrs)
    {
      var f := fields[i];
      ExtractStep(fields, i, attrs);
      if f in rewritten && rewritten[f].Upload? {
        files := files + [rewritten[f].file];
        rewritten := rewritten[f := Scalar(rewritten[f].file.hashName)];
      }
      i := i + 1;
    }
    assert fields[..i] == fields;
  }

  /**
   * One more slot: if it still holds a handle after the earlier slots, that
   * handle is appended and replaced by its name; otherwise nothing changes.
   */
  lemma ExtractStep(fields: seq<string>, i: nat, attrs: Attributes)
    requires i < |fields|
    ensures var f, r := fields[i], Rewrite(fields[..i], attrs);
      && UploadsIn(fields[..i + 1], attrs)
         == UploadsIn(fields[..i], attrs) + (if f in r && r[f].Upload? then [r[f].file] else [])
      && Rewrite(fields[..i + 1], attrs)
         == if f in r && r[f].Upload? then r[f := Scalar(r[f].file.hashName)] else r
  {
    var f, r := fields[i], Rewrite(fields[..i], attrs);
    assert fields[..i + 1][..i] == fields[..i];
    assert forall k :: k in fields[..i + 1] <==> k in fields[..i] || k == f by {
      assert fields[..i + 1] == fields[..i] + [f];
    }
    assert f in r && r[f].Upload? <==> f in attrs && attrs[f].Upload? && f !in fields[..i];
  }

  /** A map whose file slots hold no upload handle yields no handles. */
  lemma {:induction false} NothingToExtract(fields: seq<string>, attrs: Attributes)
    requires forall k :: k in attrs && k in fields ==> !attrs[k].Upload?
    ensures UploadsIn(fields, attrs) == []
  {
    if fields != [] {
      NothingToExtract(fields[..|fields| - 1], attrs);
    }
  }

  /** Extracting from an already extracted map finds nothing and changes nothing. */
  lemma ExtractIdempotent(fields: seq<string>, attrs: Attributes)
    ensures UploadsIn(fields, Rewrite(fields, attrs)) == []
    ensures Rewrite(fields, Rewrite(fields, attrs)) == Rewrite(fields, attrs)
  {
    RewriteEntries(fields, attrs);
    NothingToExtract(fields, Rewrite(fields, attrs));
  }

  /** Every extracted handle is named, under its hashName, by one of the rewritten slots. */
  lemma ExtractedFileHasSlot(fields: seq<string>, attrs: Attributes, x: UploadedFile)
    requires x in UploadsIn(fields, attrs)
    ensures exists f :: f in fields && f in attrs && Rewrite(fields, attrs)[f] == Scalar(x.hashName)
  {
    UploadsInExactly(fields, attrs);
    var f :| f in fields && f in attrs && attrs[f] == Upload(x);
    assert Rewrite(fields, attrs)[f] == Scalar(x.hashName);
  }

  /**
   * The unit test's last case: two upload slots and a plain key give both
   * handles in slot order and a map of the same size with both names.
   */
  lemma ExtractExample(a: UploadedFile, b: UploadedFile)
    ensures var attrs := map["file1" := Upload(a), "file2" := Upload(b), "other" := Scalar("test")];
      && UploadsIn(["file1", "file2"], attrs) == [a, b]
      && Rewrite(["file1", "file2"], attrs)
         == map["file1" := Scalar(a.hashName), "file2" := Scalar(b.hashName), "other" := Scalar("test")]
  {
    var attrs := map["file1" := Upload(a), "file2" := Upload(b), "other" := Scalar("test")];
    assert ["file1", "file2"][..1] == ["file1"];
    assert "file1" != "file2";
    assert UploadsIn(["file1"], attrs) == [a];
  }

  /**
   * The attribute keys whose value differs from the last persisted one
   * (Eloquent's dirty attributes).
   */
  function Dirty(attributes: Attributes, original: Attributes): (r: set<string>)
    ensures r <= attributes.Keys
    ensures forall k :: k in attributes && k in original && attributes[k] == original[k] ==> k !in r
  {
    set k | k in attributes && (k !in original || attributes[k] != original[k])
  }

  /**
   * The names recorded as old files when an update is saved: the previous,
   * truthy values of the file slots whose value changed.
   */
  function OldFiles(fields: seq<string>, original: Attributes, dirty: set<string>): (r: seq<FileName>)
    ensures |r| <= |fields|
  {
    if fields == [] then []
    else
      var f := fields[0];
      var here := if f in dirty && f in original && original[f].Scalar? && Truthy(original[f])
                  then [original[f].text] else [];
      here + OldFiles(fields[1..], original, dirty)
  }

  /**
   * A name is recorded exactly when it is the truthy previous value of a file
   * slot that changed.
   */
  lemma {:induction false} OldFilesExactly(fields: seq<string>, original: Attributes, dirty: set<string>)
    ensures forall n :: n in OldFiles(fields, original, dirty) <==>
      exists f :: f in fields && f in dirty && f in original && original[f] == Scalar(n) && Truthy(original[f])
  {
    if fields != [] {
      OldFilesExactly(fields[1..], original, dirty);
      assert fields == [fields[0]] + fields[1..];
    }
  }

  /**
   * The feature test's two cases: replacing file2 records its previous name;
   * setting a slot that had no value records nothing.
   */
  lemma OldFilesExamples()
    ensures var original := map["name" := Scalar("test"), "file1" := Scalar("test1.mp4"), "file2" := Scalar("test2.mp4")];
      var filled := original["name" := Scalar("test_name")]["file2" := Scalar("test3.mp4")];
      OldFiles(["file1", "file2"], original, Dirty(filled, original)) == ["test2.mp4"]
    ensures var original := map["name" := Scalar("test")];
      var filled := original["name" := Scalar("test_name")]["file2" := Scalar("test2.mp4")];
      OldFiles(["file1", "file2"], original, Dirty(filled, original)) == []
  {
    var original := map["name" := Scalar("test"), "file1" := Scalar("test1.mp4"), "file2" := Scalar("test2.mp4")];
    var filled := original["name" := Scalar("test_name")]["file2" := Scalar("test3.mp4")];
    assert "file1" !in Dirty(filled, original);
    assert "file2" in Dirty(filled, original);
    assert ["file1", "file2"][1..] == ["file2"];
    assert ["file2"][1..] == [];
  }
}
