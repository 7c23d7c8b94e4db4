/**
 * The Video model's transactional write path: `create` and `update` extract
 * the upload handles, open a transaction, write the row, sync the category
 * and gender associations, upload the files under the video's directory and
 * commit; any exception deletes this call's files and rolls back. A
 * successful update that carried files then deletes the files it superseded.
 *
 * Failures are injected: `failAt` names the one step that throws, if any.
 */
module VideoModel {
  import opened Wrappers
  import opened UploadFiles

  type VideoId = string
  type RelatedId = string

  /** Video::$fileFields, in declaration order. */
  const FileFields: seq<string> := ["video_file", "thumb_file", "banner_file", "trailer_file"]

  /** Video::$fillable: the only keys `fill` copies into the model. */
  const Fillable: set<string> := {"title", "description", "year_launched", "opened", "rating", "duration",
                                  "thumb_file", "banner_file", "trailer_file", "video_file"}

  /** A row of category_video or gender_video. */
  datatype Link = Link(videoId: VideoId, relatedId: RelatedId)

  /**
   * The relational state a transaction covers: the videos table (id to
   * persisted attributes), the two join tables, and the category and gender
   * ids their foreign keys refer to.
   */
  datatype Tables = Tables(
    videos: map<VideoId, Attributes>,
    categoryVideo: set<Link>,
    genderVideo: set<Link>,
    categories: set<RelatedId>,
    genders: set<RelatedId>)
  {
    /** An UPDATE of row `id` with `changes`; it matches nothing when the row is gone. */
    function WithChanges(id: VideoId, changes: Attributes): (t: Tables)
      ensures t.categoryVideo == categoryVideo && t.genderVideo == genderVideo
      ensures t.categories == categories && t.genders == genders
      ensures t.videos.Keys == videos.Keys
      ensures forall w :: w in videos && w != id ==> t.videos[w] == videos[w]
      ensures id in videos ==> t.videos[id] == videos[id] + changes
    {
      if id in videos then this.(videos := videos[id := videos[id] + changes]) else this
    }
  }

  /** The steps of create and update that can throw. */
  datatype Step = WriteRow | SyncCategories | SyncGenders | UploadFile(index: nat) | CommitTx | DeleteOldFile(index: nat)

  /** How many of `n` uploads complete before the injected failure. */
  function UploadsDone(failAt: Option<Step>, n: nat): (k: nat)
    ensures k <= n
    ensures k < n <==> failAt.Some? && failAt.value.UploadFile? && failAt.value.index < n
  {
    if failAt.Some? && failAt.value.UploadFile? && failAt.value.index < n then failAt.value.index else n
  }

  /** How many of `n` old-file deletions complete before the injected failure. */
  function DeletionsDone(failAt: Option<Step>, n: nat): (k: nat)
    ensures k <= n
    ensures k < n <==> failAt.Some? && failAt.value.DeleteOldFile? && failAt.value.index < n
  {
    if failAt.Some? && failAt.value.DeleteOldFile? && failAt.value.index < n then failAt.value.index else n
  }

  // ---------------------------------------------------------------------
  // Association sync
  // ---------------------------------------------------------------------

  /** What handleRelations does with one relation key. */
  datatype SyncArg = Untouched | Replace(ids: set<RelatedId>) | Unusable

  /**
   * The argument of `sync` for `key`: nothing when the key is unset or null
   * (isset), the ids of an array, a single id for a scalar; an upload handle
   * is not an id and makes the query throw.
   */
  function RelationArg(attrs: Attributes, key: string): (a: SyncArg)
    ensures a.Untouched? <==> key !in attrs || attrs[key] == Null
    ensures key in attrs && attrs[key].IdList? ==> a == Replace(set x | x in attrs[key].ids)
    ensures key in attrs && attrs[key].Scalar? ==> a == Replace({attrs[key].text})
  {
    if key !in attrs then Untouched
    else match attrs[key]
      case Null => Untouched
      case Scalar(s) => Replace({s})
      case IdList(ids) => Replace(set x | x in ids)
      case Upload(_) => Unusable
  }

  /** The ids `links` associates with video `v`. */
  function LinkedTo(links: set<Link>, v: VideoId): set<RelatedId> {
    set l | l in links && l.videoId == v :: l.relatedId
  }

  /** `sync(target)` for video `v`: its links become exactly `target`. */
  function Synced(links: set<Link>, v: VideoId, target: set<RelatedId>): (r: set<Link>)
    ensures forall l :: l in r && l.videoId != v <==> l in links && l.videoId != v
    ensures forall l: Link :: l.videoId == v ==> (l in r <==> l.relatedId in target)
  {
    (set l | l in links && l.videoId != v) + (set r | r in target :: Link(v, r))
  }

  /** After a sync the video is linked to exactly the target and every other video keeps its links. */
  lemma SyncedExactly(links: set<Link>, v: VideoId, target: set<RelatedId>)
    ensures LinkedTo(Synced(links, v, target), v) == target
    ensures forall w :: w != v ==> LinkedTo(Synced(links, v, target), w) == LinkedTo(links, w)
  {
    var s := Synced(links, v, target);
    forall r | r in target ensures r in LinkedTo(s, v) {
      assert Link(v, r) in s;
    }
    forall w | w != v ensures LinkedTo(s, w) == LinkedTo(links, w) {
      forall r | r in LinkedTo(links, w) ensures r in LinkedTo(s, w) {
        var l :| l in links && l.videoId == w && l.relatedId == r;
        assert l in s;
      }
    }
  }

  /** Syncing to the same target twice is the same as syncing once. */
  lemma SyncIdempotent(links: set<Link>, v: VideoId, target: set<RelatedId>)
    ensures Synced(Synced(links, v, target), v, target) == Synced(links, v, target)
  {
  }

  /**
   * Sync as Laravel performs it: detach the current ids missing from the
   * target, attach the target ids not yet linked.
   */
  lemma SyncAsDetachAttach(links: set<Link>, v: VideoId, target: set<RelatedId>)
    ensures var current := LinkedTo(links, v);
      Synced(links, v, target)
      == (links - set r | r in current - target :: Link(v, r)) + set r | r in target - current :: Link(v, r)
  {
    var current := LinkedTo(links, v);
    var detached := set r | r in current - target :: Link(v, r);
    var attached := set r | r in target - current :: Link(v, r);
    var rhs := (links - detached) + attached;
    forall l | l in Synced(links, v, target) ensures l in rhs {
      if l.videoId == v && l.relatedId in current {
        var m :| m in links && m.videoId == v && m.relatedId == l.relatedId;
        assert m == l;
      }
    }
    forall l | l in rhs ensures l in Synced(links, v, target) {
      if l in links && l.videoId == v {
        assert l.relatedId in current;
        assert l == Link(v, l.relatedId);
      }
    }
  }

  /** The sync feature test: [c0], then [c1, c2], leaves c1 and c2 and drops c0. */
  lemma SyncScenario(links: set<Link>, v: VideoId)
    ensures var after := Synced(Synced(links, v, {"c0"}), v, {"c1", "c2"});
      Link(v, "c1") in after && Link(v, "c2") in after && Link(v, "c0") !in after
  {
  }

  /** Whether syncing `arg` throws: an unusable value, an injected error, or an id with no row to refer to. */
  predicate SyncOk(arg: SyncArg, known: set<RelatedId>, fails: bool) {
    match arg
    case Untouched => true
    case Unusable => false
    case Replace(ids) => !fails && ids <= known
  }

  function SyncedBy(links: set<Link>, v: VideoId, arg: SyncArg): set<Link> {
    if arg.Replace? then Synced(links, v, arg.ids) else links
  }

  /** handleRelations completes: the categories sync and then the genders sync both succeed. */
  predicate RelationsOk(t: Tables, attrs: Attributes, failAt: Option<Step>) {
    && SyncOk(RelationArg(attrs, "categories_id"), t.categories, failAt == Some(SyncCategories))
    && SyncOk(RelationArg(attrs, "genders_id"), t.genders, failAt == Some(SyncGenders))
  }

  /**
   * The tables after handleRelations: the categories are synced when that
   * sync succeeds, the genders when both succeed; the videos table and the
   * referenced ids never change.
   */
  function Related(t: Tables, v: VideoId, attrs: Attributes, failAt: Option<Step>): (r: Tables)
    ensures r.videos == t.videos && r.categories == t.categories && r.genders == t.genders
    ensures RelationsOk(t, attrs, failAt) ==>
      && r.categoryVideo == SyncedBy(t.categoryVideo, v, RelationArg(attrs, "categories_id"))
      && r.genderVideo == SyncedBy(t.genderVideo, v, RelationArg(attrs, "genders_id"))
  {
    var cats := RelationArg(attrs, "categories_id");
    var gens := RelationArg(attrs, "genders_id");
    if !SyncOk(cats, t.categories, failAt == Some(SyncCategories)) then t
    else
      var t1 := t.(categoryVideo := SyncedBy(t.categoryVideo, v, cats));
      if !SyncOk(gens, t.genders, failAt == Some(SyncGenders)) then t1
      else t1.(genderVideo := SyncedBy(t.genderVideo, v, gens))
  }

  /**
   * When handleRelations succeeds, a set relation key leaves the video linked
   * to exactly the given ids, an unset or null key leaves its links as they
   * were, and other videos keep theirs.
   */
  lemma RelatedSemantics(t: Tables, v: VideoId, attrs: Attributes, failAt: Option<Step>, key: string)
    requires RelationsOk(t, attrs, failAt)
    requires key == "categories_id" || key == "genders_id"
    ensures var links := if key == "categories_id" then t.categoryVideo else t.genderVideo;
      var after := if key == "categories_id" then Related(t, v, attrs, failAt).categoryVideo
                   else Related(t, v, attrs, failAt).genderVideo;
      && (RelationArg(attrs, key).Untouched? ==> after == links)
      && (RelationArg(attrs, key).Replace? ==> LinkedTo(after, v) == RelationArg(attrs, key).ids)
      && (forall w :: w != v ==> LinkedTo(after, w) == LinkedTo(links, w))
  {
    var links := if key == "categories_id" then t.categoryVideo else t.genderVideo;
    var arg := RelationArg(attrs, key);
    if arg.Replace? {
      SyncedExactly(links, v, arg.ids);
    }
  }

  /** An id with no category row makes handleRelations throw, as in the rollback feature tests. */
  lemma UnknownCategoryThrows(t: Tables, attrs: Attributes, failAt: Option<Step>, c: RelatedId)
    requires "categories_id" in attrs && attrs["categories_id"].IdList?
    requires c in attrs["categories_id"].ids && c !in t.categories
    ensures !RelationsOk(t, attrs, failAt)
  {
    assert c in RelationArg(attrs, "categories_id").ids;
  }

  // ---------------------------------------------------------------------
  // Eloquent's update of the in-memory model
  // ---------------------------------------------------------------------

  /** The in-memory state of a Video: current and persisted attributes, `exists`, and `oldFiles`. */
  datatype Model = Model(attributes: Attributes, original: Attributes, persisted: bool, oldFiles: seq<FileName>)

  function Restrict(m: Attributes, keys: set<string>): (r: Attributes)
    ensures r.Keys == m.Keys * keys
    ensures forall k :: k in r ==> r[k] == m[k]
  {
    map k | k in m && k in keys :: m[k]
  }

  /** `fill`: the fillable entries of `attrs` overwrite the model's attributes; the rest are ignored. */
  function Fill(attributes: Attributes, attrs: Attributes): (r: Attributes)
    ensures r.Keys == attributes.Keys + (attrs.Keys * Fillable)
    ensures forall k :: k in attrs && k in Fillable ==> r[k] == attrs[k]
    ensures forall k :: k in attributes && (k !in attrs || k !in Fillable) ==> r[k] == attributes[k]
  {
    attributes + Restrict(attrs, Fillable)
  }

  /**
   * The result of `parent::update`: the new model, the value returned, whether
   * it completed without throwing, and the changes written to the row, if any.
   */
  datatype SaveResult = SaveResult(model: Model, saved: bool, ok: bool, changes: Option<Attributes>)

  /**
   * `parent::update($attrs)`: false when the model does not exist; otherwise
   * fill and save. Saving a clean model writes nothing. Saving a dirty one
   * records the old files and runs the UPDATE of the dirty attributes, which
   * may throw; once saved, the original attributes are synced to the current
   * ones. The old files are assumed recorded before the UPDATE query, so that
   * a failed write still records them; the trait's tests allow this.
   */
  function Saving(m: Model, attrs: Attributes, writeFails: bool): (r: SaveResult)
    ensures r.saved == m.persisted && r.model.persisted == m.persisted
    ensures !m.persisted ==> r == SaveResult(m, false, true, None)
    ensures !r.ok ==> r.model.original == m.original && r.changes.None?
    ensures r.changes.Some? ==> r.ok && r.changes.value.Keys <= r.model.attributes.Keys
  {
    if !m.persisted then SaveResult(m, false, true, None)
    else
      var filled := Fill(m.attributes, attrs);
      var dirty := Dirty(filled, m.original);
      if dirty == {} then SaveResult(m.(attributes := filled, original := filled), true, true, None)
      else
        var olds := OldFiles(FileFields, m.original, dirty);
        if writeFails then SaveResult(m.(attributes := filled, oldFiles := olds), true, false, None)
        else SaveResult(Model(filled, filled, true, olds), true, true, Some(Restrict(filled, dirty)))
  }

  /**
   * A successful save brings a row that held the persisted attributes to the
   * filled ones: every current attribute is in the row with its new value.
   */
  lemma SavedRowMatches(m: Model, attrs: Attributes)
    requires m.persisted
    ensures var r := Saving(m, attrs, false);
      var row := if r.changes.Some? then m.original + r.changes.value else m.original;
      forall k :: k in r.model.attributes ==> k in row && row[k] == r.model.attributes[k]
  {
    var filled := Fill(m.attributes, attrs);
    var dirty := Dirty(filled, m.original);
    forall k | k in filled
      ensures k in dirty || (k in m.original && m.original[k] == filled[k])
    {
    }
  }

  /**
   * The old files an update records are exactly the truthy previous names of
   * the file slots it changed; a failed update still records them.
   */
  lemma SavingRecordsOldFiles(m: Model, attrs: Attributes, writeFails: bool, n: FileName)
    requires m.persisted
    requires Dirty(Fill(m.attributes, attrs), m.original) != {}
    ensures n in Saving(m, attrs, writeFails).model.oldFiles <==>
      exists f :: f in FileFields && f in Dirty(Fill(m.attributes, attrs), m.original)
        && f in m.original && m.original[f] == Scalar(n) && Truthy(m.original[f])
  {
    OldFilesExactly(FileFields, m.original, Dirty(Fill(m.attributes, attrs), m.original));
  }

  /** Keys outside $fillable in the update's attributes make no difference. */
  lemma SavingIgnoresGuarded(m: Model, attrs: Attributes, writeFails: bool)
    ensures Saving(m, attrs, writeFails) == Saving(m, Restrict(attrs, Fillable), writeFails)
  {
    assert Fill(m.attributes, attrs) == Fill(m.attributes, Restrict(attrs, Fillable));
  }

  // ---------------------------------------------------------------------
  // Paths
  // ---------------------------------------------------------------------

  lemma PathsStep(dir: string, names: seq<FileName>, i: nat)
    requires i < |names|
    ensures Paths(dir, names[..i + 1]) == Paths(dir, names[..i]) + {RelativePath(dir, names[i])}
  {
    assert names[..i + 1] == names[..i] + [names[i]];
  }

  lemma PathsPrefix(dir: string, names: seq<FileName>, k: nat)
    requires k <= |names|
    ensures Paths(dir, names[..k]) <= Paths(dir, names)
  {
  }

  /**
   * Removing the paths of `names` from directory `dir` removes exactly those
   * names there and touches no other directory.
   */
  lemma RemovedExactly(paths: set<Path>, dir: string, names: seq<FileName>, d: string, n: FileName)
    requires '/' !in dir && '/' !in d
    ensures RelativePath(d, n) in paths - Paths(dir, names)
      <==> RelativePath(d, n) in paths && (d != dir || n !in names)
  {
    if RelativePath(d, n) in Paths(dir, names) {
      var m :| m in names && RelativePath(dir, m) == RelativePath(d, n);
      PathsDoNotCollide(dir, m, d, n);
    }
    if d == dir && n in names {
      assert RelativePath(d, n) in Paths(dir, names);
    }
  }

  /**
   * An upload in a file slot is both rewritten to its name and, once the
   * extracted handles are stored under the video's directory, found at
   * "{id}/{name}".
   */
  lemma SlotNamesStoredFile(id: VideoId, attrs: Attributes, f: string)
    requires f in FileFields && f in attrs && attrs[f].Upload?
    ensures Rewrite(FileFields, attrs)[f] == Scalar(attrs[f].file.hashName)
    ensures RelativePath(id, attrs[f].file.hashName) in Paths(id, Names(UploadsIn(FileFields, attrs)))
  {
    RewriteEntries(FileFields, attrs);
    UploadsInExactly(FileFields, attrs);
    var files := UploadsIn(FileFields, attrs);
    var i :| 0 <= i < |files| && files[i] == attrs[f].file;
    assert Names(files)[i] == attrs[f].file.hashName;
  }

  /** The handle a slot contributes, if it holds one. */
  function HandleAt(attrs: Attributes, f: string): seq<UploadedFile> {
    if f in attrs && attrs[f].Upload? then [attrs[f].file] else []
  }

  /** The handles come out in the order of $fileFields: video, thumb, banner, trailer. */
  lemma FileFieldsOrder(attrs: Attributes)
    ensures UploadsIn(FileFields, attrs)
      == HandleAt(attrs, "video_file") + HandleAt(attrs, "thumb_file")
         + HandleAt(attrs, "banner_file") + HandleAt(attrs, "trailer_file")
  {
    var s := FileFields;
    assert s[..3] == ["video_file", "thumb_file", "banner_file"];
    assert s[..3][..2] == ["video_file", "thumb_file"];
    assert s[..3][..2][..1] == ["video_file"];
    assert UploadsIn(["video_file"], attrs) == HandleAt(attrs, "video_file");
    assert UploadsIn(s[..3][..2], attrs) == HandleAt(attrs, "video_file") + HandleAt(attrs, "thumb_file");
    assert UploadsIn(s[..3], attrs)
      == HandleAt(attrs, "video_file") + HandleAt(attrs, "thumb_file") + HandleAt(attrs, "banner_file");
  }

  // ---------------------------------------------------------------------
  // State
  // ---------------------------------------------------------------------

  class Db {
    var tables: Tables
    /** The snapshot taken at each open transaction level, outermost first. */
    var savepoints: seq<Tables>

    constructor (tables: Tables)
      ensures this.tables == tables && savepoints == []
    {
      this.tables := tables;
      savepoints := [];
    }

    /** `DB::beginTransaction()`: one level deeper, remembering the current tables. */
    method BeginTransaction()
      modifies this
      ensures tables == old(tables)
      ensures savepoints == old(savepoints) + [old(tables)]
    {
      savepoints := savepoints + [tables];
    }

    /** `DB::commit()`: one level up, keeping the tables; nothing happens at level 0. */
    method Commit()
      modifies this
      ensures tables == old(tables)
      ensures savepoints == if old(savepoints) == [] then [] else old(savepoints)[..|old(savepoints)| - 1]
    {
      if savepoints != [] {
        savepoints := savepoints[..|savepoints| - 1];
      }
    }

    /**
     * `DB::rollBack()`: back to the snapshot of the innermost level and one
     * level up; nothing happens at level 0.
     */
    method RollBack()
      modifies this
      ensures savepoints == if old(savepoints) == [] then [] else old(savepoints)[..|old(savepoints)| - 1]
      ensures tables == if old(savepoints) == [] then old(tables) else old(savepoints)[|old(savepoints)| - 1]
    {
      if savepoints != [] {
        tables := savepoints[|savepoints| - 1];
        savepoints := savepoints[..|savepoints| - 1];
      }
    }
  }

  /** The file storage: the set of stored relative paths. */
  class Disk {
    var paths: set<Path>

    constructor (paths: set<Path>)
      ensures this.paths == paths
    {
      this.paths := paths;
    }
  }

  class Video {
    const db: Db
    const disk: Disk
    const id: VideoId
    var attributes: Attributes
    var original: Attributes
    var persisted: bool
    var oldFiles: seq<FileName>

    constructor (db: Db, disk: Disk, id: VideoId, m: Model)
      ensures this.db == db && this.disk == disk && this.id == id
      ensures State() == m
    {
      this.db := db;
      this.disk := disk;
      this.id := id;
      attributes := m.attributes;
      original := m.original;
      persisted := m.persisted;
      oldFiles := m.oldFiles;
    }

    function State(): Model
      reads this
    {
      Model(attributes, original, persisted, oldFiles)
    }

    /** uploadDir: a video's files live in the directory named by its id. */
    function UploadDir(): (d: string)
      ensures forall n :: RelativePath(d, n) == id + "/" + n
    {
      id
    }

    /** uploadFiles: stores each handle at "{id}/{hashName}", in order, until one throws. */
    method UploadFiles(files: seq<UploadedFile>, failAt: Option<Step>) returns (ok: bool)
      modifies disk
      ensures ok <==> UploadsDone(failAt, |files|) == |files|
      ensures disk.paths == old(disk.paths) + Paths(id, Names(files)[..UploadsDone(failAt, |files|)])
    {
      var names := Names(files);
      var i := 0;
      assert names[..0] == [];
      while i < |names|
        invariant 0 <= i <= |names|
        invariant i <= UploadsDone(failAt, |files|)
        invariant disk.paths == old(disk.paths) + Paths(id, names[..i])
      {
        if failAt == Some(UploadFile(i)) {
          return false;
        }
        PathsStep(id, names, i);
        disk.paths := disk.paths + {RelativePath(UploadDir(), names[i])};
        i := i + 1;
      }
      assert names[..i] == names[..UploadsDone(failAt, |files|)];
      return true;
    }

    /** deleteFiles: removes "{id}/{name}" for each name. */
    method DeleteFiles(names: seq<FileName>)
      modifies disk
      ensures disk.paths == old(disk.paths) - Paths(id, names)
    {
      var i := 0;
      assert names[..0] == [];
      while i < |names|
        invariant 0 <= i <= |names|
        invariant disk.paths == old(disk.paths) - Paths(id, names[..i])
      {
        PathsStep(id, names, i);
        disk.paths := disk.paths - {RelativePath(UploadDir(), names[i])};
        i := i + 1;
      }
      assert names[..i] == names;
    }

    /** deleteOldFiles: deleteFiles on the recorded old files, in order, until one throws. */
    method DeleteOldFiles(failAt: Option<Step>) returns (ok: bool)
      modifies disk
      ensures ok <==> DeletionsDone(failAt, |oldFiles|) == |oldFiles|
      ensures disk.paths == old(disk.paths) - Paths(id, oldFiles[..DeletionsDone(failAt, |oldFiles|)])
    {
      var i := 0;
      assert oldFiles[..0] == [];
      while i < |oldFiles|
        invariant 0 <= i <= |oldFiles|
        invariant i <= DeletionsDone(failAt, |oldFiles|)
        invariant disk.paths == old(disk.paths) - Paths(id, oldFiles[..i])
      {
        if failAt == Some(DeleteOldFile(i)) {
          return false;
        }
        PathsStep(id, oldFiles, i);
        disk.paths := disk.paths - {RelativePath(UploadDir(), oldFiles[i])};
        i := i + 1;
      }
      assert oldFiles[..i] == oldFiles[..DeletionsDone(failAt, |oldFiles|)];
      return true;
    }

    /** `parent::update($attrs)`, with the UPDATE query as the step that may throw. */
    method SaveUpdate(attrs: Attributes, failAt: Option<Step>) returns (saved: bool, ok: bool)
      modifies this, db
      ensures var r := Saving(old(State()), attrs, failAt == Some(WriteRow));
        && State() == r.model && saved == r.saved && ok == r.ok
        && db.tables == (if r.changes.Some? then old(db.tables).WithChanges(id, r.changes.value) else old(db.tables))
      ensures db.savepoints == old(db.savepoints)
    {
      if !persisted {
        return false, true;
      }
      attributes := Fill(attributes, attrs);
      var dirty := Dirty(attributes, original);
      if dirty != {} {
        oldFiles := OldFiles(FileFields, original, dirty);
        if failAt == Some(WriteRow) {
          return true, false;
        }
        db.tables := db.tables.WithChanges(id, Restrict(attributes, dirty));
      }
      original := attributes;
      return true, true;
    }

    /** The catch block: delete this call's files, then roll back. */
    method Recover(files: seq<UploadedFile>)
      modifies db, disk
      ensures disk.paths == old(disk.paths) - Paths(id, Names(files))
      ensures db.savepoints == if old(db.savepoints) == [] then [] else old(db.savepoints)[..|old(db.savepoints)| - 1]
      ensures db.tables == if old(db.savepoints) == [] then old(db.tables) else old(db.savepoints)[|old(db.savepoints)| - 1]
    {
      DeleteFiles(Names(files));
      db.RollBack();
    }

    /**
     * The try block of update up to and including the commit: the row update,
     * handleRelations, the uploads when saved, and the commit.
     */
    method TryUpdate(rewritten: Attributes, files: seq<UploadedFile>, failAt: Option<Step>) returns (saved: bool, ok: bool)
      modifies this, db, disk
      ensures var r := Saving(old(State()), rewritten, failAt == Some(WriteRow));
        && State() == r.model && saved == r.saved
        && ok == UpdateCommits(old(db.tables), old(State()), rewritten, |files|, failAt)
      ensures ok ==> var r := Saving(old(State()), rewritten, failAt == Some(WriteRow));
        && db.tables == Related(Written(old(db.tables), id, r), id, rewritten, failAt)
        && db.savepoints == old(db.savepoints)
        && disk.paths == old(disk.paths) + (if saved then Paths(id, Names(files)) else {})
      ensures !ok ==> db.savepoints == old(db.savepoints) + [old(db.tables)]
      ensures !ok ==> old(disk.paths) <= disk.paths <= old(disk.paths) + Paths(id, Names(files))
    {
      db.BeginTransaction();
      saved, ok := SaveUpdate(rewritten, failAt);
      if !ok {
        return;
      }
      ok := HandleRelations(this, rewritten, failAt);
      if !ok {
        return;
      }
      if saved {
        ok := UploadFiles(files, failAt);
        PathsPrefix(id, Names(files), UploadsDone(failAt, |files|));
        if !ok {
          return;
        }
      }
      if failAt == Some(CommitTx) {
        ok := false;
        return;
      }
      db.Commit();
    }

    /**
     * update, with deleteOldFiles moved out of the try block: a failure
     * before the commit deletes this call's files and rolls back; after the
     * commit the old files are deleted, and a failure there leaves both the
     * committed row and the new files in place. When `threw` holds, PHP
     * returns nothing and `saved` carries no meaning.
     */
    method Update(attrs: Attributes, failAt: Option<Step>) returns (saved: bool, threw: bool)
      modifies this, db, disk
      ensures var rewritten, files := Rewrite(FileFields, attrs), UploadsIn(FileFields, attrs);
        var r := Saving(old(State()), rewritten, failAt == Some(WriteRow));
        && State() == r.model && saved == r.saved
        && db.savepoints == old(db.savepoints)
        && if !UpdateCommits(old(db.tables), old(State()), rewritten, |files|, failAt) then
             && threw
             && db.tables == old(db.tables)
             && disk.paths == old(disk.paths) - Paths(id, Names(files))
           else
             var cleans := saved && |files| > 0;
             var gone := if cleans then r.model.oldFiles[..DeletionsDone(failAt, |r.model.oldFiles|)] else [];
             && threw == (cleans && |gone| < |r.model.oldFiles|)
             && db.tables == Related(Written(old(db.tables), id, r), id, rewritten, failAt)
             && disk.paths == old(disk.paths) + (if saved then Paths(id, Names(files)) else {}) - Paths(id, gone)
    {
      var rewritten, files := ExtractFiles(FileFields, attrs);
      var ok;
      saved, ok := TryUpdate(rewritten, files, failAt);
      if !ok {
        Recover(files);
        return saved, true;
      }
      threw := false;
      if saved && |files| > 0 {
        var deleted := DeleteOldFiles(failAt);
        threw := !deleted;
      }
    }

    /**
     * update as written: the catch block also covers deleteOldFiles, which
     * runs after the commit, so a failure there deletes this call's new
     * files and rolls back a level the commit already closed. When `threw`
     * holds, PHP returns nothing and `saved` carries no meaning.
     */
    method UpdateAsWritten(attrs: Attributes, failAt: Option<Step>) returns (saved: bool, threw: bool)
      modifies this, db, disk
      ensures var rewritten, files := Rewrite(FileFields, attrs), UploadsIn(FileFields, attrs);
        var r := Saving(old(State()), rewritten, failAt == Some(WriteRow));
        && State() == r.model && saved == r.saved
        && if !UpdateCommits(old(db.tables), old(State()), rewritten, |files|, failAt) then
             && threw
             && db.tables == old(db.tables) && db.savepoints == old(db.savepoints)
             && disk.paths == old(disk.paths) - Paths(id, Names(files))
           else
             var cleans := saved && |files| > 0;
             var olds := r.model.oldFiles;
             var committed := Related(Written(old(db.tables), id, r), id, rewritten, failAt);
             var stored := old(disk.paths) + (if saved then Paths(id, Names(files)) else {});
             if cleans && DeletionsDone(failAt, |olds|) < |olds| then
               var level := old(db.savepoints);
               && threw
               && disk.paths == stored - Paths(id, olds[..DeletionsDone(failAt, |olds|)]) - Paths(id, Names(files))
               && db.savepoints == (if level == [] then [] else level[..|level| - 1])
               && db.tables == (if level == [] then committed else level[|level| - 1])
             else
               && !threw
               && db.savepoints == old(db.savepoints)
               && db.tables == committed
               && disk.paths == stored - (if cleans then Paths(id, olds) else {})
    {
      var rewritten, files := ExtractFiles(FileFields, attrs);
      var ok;
      saved, ok := TryUpdate(rewritten, files, failAt);
      if !ok {
        Recover(files);
        return saved, true;
      }
      threw := false;
      if saved && |files| > 0 {
        var deleted := DeleteOldFiles(failAt);
        if !deleted {
          Recover(files);
          threw := true;
        }
      }
    }
  }

  /** The tables after the row update of a save. */
  function Written(t: Tables, id: VideoId, r: SaveResult): Tables {
    if r.changes.Some? then t.WithChanges(id, r.changes.value) else t
  }

  /** Whether update's try block gets through its commit. */
  predicate UpdateCommits(t: Tables, m: Model, rewritten: Attributes, n: nat, failAt: Option<Step>) {
    var r := Saving(m, rewritten, failAt == Some(WriteRow));
    && r.ok
    && RelationsOk(t, rewritten, failAt)
    && (r.saved ==> UploadsDone(failAt, n) == n)
    && failAt != Some(CommitTx)
  }

  /** Whether create's try block gets through its commit. */
  predicate CreateCommits(t: Tables, newId: VideoId, rewritten: Attributes, n: nat, failAt: Option<Step>) {
    && newId !in t.videos
    && failAt != Some(WriteRow)
    && RelationsOk(t, rewritten, failAt)
    && UploadsDone(failAt, n) == n
    && failAt != Some(CommitTx)
  }

  /** handleRelations: sync the categories, then the genders, for each key that is set. */
  method HandleRelations(video: Video, attrs: Attributes, failAt: Option<Step>) returns (ok: bool)
    modifies video.db
    ensures ok == RelationsOk(old(video.db.tables), attrs, failAt)
    ensures video.db.tables == Related(old(video.db.tables), video.id, attrs, failAt)
    ensures video.db.savepoints == old(video.db.savepoints)
  {
    var db := video.db;
    var cats := RelationArg(attrs, "categories_id");
    if !SyncOk(cats, db.tables.categories, failAt == Some(SyncCategories)) {
      return false;
    }
    db.tables := db.tables.(categoryVideo := SyncedBy(db.tables.categoryVideo, video.id, cats));
    var gens := RelationArg(attrs, "genders_id");
    if !SyncOk(gens, db.tables.genders, failAt == Some(SyncGenders)) {
      return false;
    }
    db.tables := db.tables.(genderVideo := SyncedBy(db.tables.genderVideo, video.id, gens));
    return true;
  }

  /**
   * create: extract the files, open a transaction, insert the row with the
   * fillable attributes, sync the relations, upload the files and commit.
   * On a failure after the row exists the files are deleted; on any failure
   * the transaction is rolled back.
   */
  method Create(db: Db, disk: Disk, newId: VideoId, attrs: Attributes, failAt: Option<Step>) returns (video: Video?)
    modifies db, disk
    ensures var rewritten, files := Rewrite(FileFields, attrs), UploadsIn(FileFields, attrs);
      && (video != null <==> CreateCommits(old(db.tables), newId, rewritten, |files|, failAt))
      && db.savepoints == old(db.savepoints)
      && if video == null then
           && db.tables == old(db.tables)
           && disk.paths == if newId !in old(db.tables).videos && failAt != Some(WriteRow)
                            then old(disk.paths) - Paths(newId, Names(files)) else old(disk.paths)
         else
           var row := Restrict(rewritten, Fillable);
           && fresh(video) && video.db == db && video.disk == disk && video.id == newId
           && video.State() == Model(row, row, true, [])
           && db.tables == Related(old(db.tables).(videos := old(db.tables).videos[newId := row]), newId, rewritten, failAt)
           && disk.paths == old(disk.paths) + Paths(newId, Names(files))
  {
    var rewritten, files := ExtractFiles(FileFields, attrs);
    db.BeginTransaction();
    if newId in db.tables.videos || failAt == Some(WriteRow) {
      db.RollBack();
      return null;
    }
    var row := Restrict(rewritten, Fillable);
    db.tables := db.tables.(videos := db.tables.videos[newId := row]);
    video := new Video(db, disk, newId, Model(row, row, true, []));
    var ok := HandleRelations(video, rewritten, failAt);
    if ok {
      ok := video.UploadFiles(files, failAt);
      PathsPrefix(newId, Names(files), UploadsDone(failAt, |files|));
    }
    if ok && failAt != Some(CommitTx) {
      db.Commit();
      return video;
    }
    video.Recover(files);
    return null;
  }

  // ---------------------------------------------------------------------
  // deleteOldFiles inside the try block
  // ---------------------------------------------------------------------

  /** A save whose write is meant to throw but that still completes wrote nothing, so it is a save that cannot throw. */
  lemma SavingOkIgnoresFailure(m: Model, attrs: Attributes)
    requires Saving(m, attrs, true).ok
    ensures Saving(m, attrs, true) == Saving(m, attrs, false)
  {
  }

  /** The row after a successful save holds the filled value of every fillable key of the update. */
  lemma SavedRowHolds(t: Tables, m: Model, attrs: Attributes, id: VideoId, k: string)
    requires m.persisted && id in t.videos && t.videos[id] == m.original
    requires k in attrs && k in Fillable
    ensures var rows := Written(t, id, Saving(m, attrs, false)).videos;
      id in rows && k in rows[id] && rows[id][k] == attrs[k]
  {
    var r := Saving(m, attrs, false);
    SavedRowMatches(m, attrs);
    assert r.model.attributes == Fill(m.attributes, attrs);
    assert k in r.model.attributes && r.model.attributes[k] == attrs[k];
    var row := if r.changes.Some? then m.original + r.changes.value else m.original;
    assert Written(t, id, r).videos[id] == row;
  }

  /**
   * An update that gets through its commit, with an upload in file slot `f`,
   * leaves the committed row naming that upload.
   */
  lemma CommittedRowNamesUpload(t: Tables, m: Model, attrs: Attributes, failAt: Option<Step>, id: VideoId, f: string)
    requires m.persisted && id in t.videos && t.videos[id] == m.original
    requires UpdateCommits(t, m, Rewrite(FileFields, attrs), |UploadsIn(FileFields, attrs)|, failAt)
    requires f in FileFields && f in attrs && attrs[f].Upload?
    ensures var rewritten := Rewrite(FileFields, attrs);
      var r := Saving(m, rewritten, failAt == Some(WriteRow));
      var rows := Related(Written(t, id, r), id, rewritten, failAt).videos;
      id in rows && f in rows[id] && rows[id][f] == Scalar(attrs[f].file.hashName)
  {
    var rewritten := Rewrite(FileFields, attrs);
    RewriteEntries(FileFields, attrs);
    if failAt == Some(WriteRow) {
      SavingOkIgnoresFailure(m, rewritten);
    }
    var r := Saving(m, rewritten, false);
    assert Saving(m, rewritten, failAt == Some(WriteRow)) == r;
    SavedRowHolds(t, m, rewritten, id, f);
    assert Related(Written(t, id, r), id, rewritten, failAt).videos == Written(t, id, r).videos;
  }

  /**
   * update as written: whenever it commits with an upload in slot `f`, the
   * committed row names the upload, and the storage it leaves when
   * deleteOldFiles throws (whatever was stored, less the paths of this
   * call's files) does not hold it.
   */
  lemma AsWrittenDropsNewFiles(t: Tables, m: Model, attrs: Attributes, failAt: Option<Step>,
                               paths: set<Path>, id: VideoId, f: string)
    requires m.persisted && id in t.videos && t.videos[id] == m.original
    requires UpdateCommits(t, m, Rewrite(FileFields, attrs), |UploadsIn(FileFields, attrs)|, failAt)
    requires f in FileFields && f in attrs && attrs[f].Upload?
    ensures var rewritten := Rewrite(FileFields, attrs);
      var r := Saving(m, rewritten, failAt == Some(WriteRow));
      var rows := Related(Written(t, id, r), id, rewritten, failAt).videos;
      id in rows && f in rows[id] && rows[id][f] == Scalar(attrs[f].file.hashName)
    ensures RelativePath(id, attrs[f].file.hashName) !in paths - Paths(id, Names(UploadsIn(FileFields, attrs)))
  {
    CommittedRowNamesUpload(t, m, attrs, failAt, id, f);
    SlotNamesStoredFile(id, attrs, f);
  }

  /**
   * The corrected update: whenever it commits with an upload in slot `f`,
   * the committed row names the upload, and the storage it leaves (what was
   * stored plus this call's files, less any prefix of the old files it got
   * to delete) holds it unless its name is among the old files.
   */
  lemma CorrectedKeepsNewFiles(t: Tables, m: Model, attrs: Attributes, failAt: Option<Step>,
                               paths: set<Path>, id: VideoId, f: string, k: nat)
    requires '/' !in id
    requires m.persisted && id in t.videos && t.videos[id] == m.original
    requires UpdateCommits(t, m, Rewrite(FileFields, attrs), |UploadsIn(FileFields, attrs)|, failAt)
    requires f in FileFields && f in attrs && attrs[f].Upload?
    requires var olds := Saving(m, Rewrite(FileFields, attrs), failAt == Some(WriteRow)).model.oldFiles;
      k <= |olds| && attrs[f].file.hashName !in olds
    ensures var rewritten := Rewrite(FileFields, attrs);
      var r := Saving(m, rewritten, failAt == Some(WriteRow));
      var rows := Related(Written(t, id, r), id, rewritten, failAt).videos;
      id in rows && f in rows[id] && rows[id][f] == Scalar(attrs[f].file.hashName)
    ensures var olds := Saving(m, Rewrite(FileFields, attrs), failAt == Some(WriteRow)).model.oldFiles;
      RelativePath(id, attrs[f].file.hashName)
        in paths + Paths(id, Names(UploadsIn(FileFields, attrs))) - Paths(id, olds[..k])
  {
    CommittedRowNamesUpload(t, m, attrs, failAt, id, f);
    SlotNamesStoredFile(id, attrs, f);
    var olds := Saving(m, Rewrite(FileFields, attrs), failAt == Some(WriteRow)).model.oldFiles;
    var h := attrs[f].file.hashName;
    assert h !in olds[..k];
    RemovedExactly(paths + Paths(id, Names(UploadsIn(FileFields, attrs))), id, olds[..k], id, h);
  }

  /** The scenario below: a stored video whose video file "old.mp4" is replaced by an upload "new.mp4". */
  const OldSlots: Attributes := map["video_file" := Scalar("old.mp4")]
  const NewSlots: Attributes := map["video_file" := Scalar("new.mp4")]
  const NewUpload: Attributes := map["video_file" := Upload(UploadedFile("new.mp4"))]
  const StoredVideo: Model := Model(OldSlots, OldSlots, true, [])
  const TablesBefore: Tables := Tables(map["v1" := OldSlots], {}, {}, {}, {})

  lemma ScenarioExtract()
    ensures Rewrite(FileFields, NewUpload) == NewSlots
    ensures UploadsIn(FileFields, NewUpload) == [UploadedFile("new.mp4")]
  {
    FileFieldsOrder(NewUpload);
    assert Rewrite(FileFields, NewUpload) == NewSlots;
  }

  lemma ScenarioOldFiles()
    ensures OldFiles(FileFields, OldSlots, {"video_file"}) == ["old.mp4"]
  {
    var rest := ["thumb_file", "banner_file", "trailer_file"];
    assert FileFields[1..] == rest;
    assert rest[1..][1..][1..] == [];
    assert OldFiles(rest[1..][1..], OldSlots, {"video_file"}) == [];
    assert OldFiles(rest[1..], OldSlots, {"video_file"}) == [];
    assert OldFiles(rest, OldSlots, {"video_file"}) == [];
    assert Truthy(Scalar("old.mp4"));
  }

  lemma ScenarioSaving()
    ensures Saving(StoredVideo, NewSlots, false) == SaveResult(Model(NewSlots, NewSlots, true, ["old.mp4"]), true, true, Some(NewSlots))
  {
    ScenarioOldFiles();
    assert Fill(OldSlots, NewSlots) == NewSlots;
    assert Dirty(NewSlots, OldSlots) == {"video_file"};
    assert Restrict(NewSlots, {"video_file"}) == NewSlots;
  }

  /** No relation key: handleRelations succeeds and changes nothing. */
  lemma NoRelationKeys(t: Tables, v: VideoId, attrs: Attributes, failAt: Option<Step>)
    requires "categories_id" !in attrs && "genders_id" !in attrs
    ensures RelationsOk(t, attrs, failAt)
    ensures Related(t, v, attrs, failAt) == t
  {
  }

  /** The update commits, with the row naming the new file. */
  lemma ScenarioCommitted()
    ensures UpdateCommits(TablesBefore, StoredVideo, NewSlots, 1, Some(DeleteOldFile(0)))
    ensures Related(Written(TablesBefore, "v1", Saving(StoredVideo, NewSlots, false)), "v1", NewSlots, Some(DeleteOldFile(0)))
            == Tables(map["v1" := NewSlots], {}, {}, {}, {})
  {
    ScenarioSaving();
    assert OldSlots + NewSlots == NewSlots;
    assert TablesBefore.WithChanges("v1", NewSlots) == Tables(map["v1" := NewSlots], {}, {}, {}, {});
    NoRelationKeys(TablesBefore.WithChanges("v1", NewSlots), "v1", NewSlots, Some(DeleteOldFile(0)));
    NoRelationKeys(TablesBefore, "v1", NewSlots, Some(DeleteOldFile(0)));
  }

  /**
   * update as written, outside any enclosing transaction, replacing the
   * video file of a stored video while deleting the old file throws: the
   * committed row names "new.mp4", which is no longer stored.
   */
  method AsWrittenScenario() returns (rowValue: Value, stored: bool)
    ensures rowValue == Scalar("new.mp4")
    ensures !stored
  {
    var db := new Db(TablesBefore);
    var disk := new Disk({"v1/old.mp4"});
    var video := new Video(db, disk, "v1", StoredVideo);
    ScenarioExtract();
    ScenarioSaving();
    ScenarioCommitted();
    var saved, threw := video.UpdateAsWritten(NewUpload, Some(DeleteOldFile(0)));
    AsWrittenDropsNewFiles(TablesBefore, StoredVideo, NewUpload, Some(DeleteOldFile(0)),
                           {"v1/old.mp4"} + Paths("v1", ["new.mp4"]) - Paths("v1", ["old.mp4"][..0]), "v1", "video_file");
    rowValue := db.tables.videos["v1"]["video_file"];
    stored := RelativePath("v1", "new.mp4") in disk.paths;
  }

  /**
   * The same call on the corrected update: the deletion error still
   * propagates, but the file the committed row names is stored.
   */
  method CorrectedScenario() returns (rowValue: Value, stored: bool, threw: bool)
    ensures rowValue == Scalar("new.mp4")
    ensures stored && threw
  {
    var db := new Db(TablesBefore);
    var disk := new Disk({"v1/old.mp4"});
    var video := new Video(db, disk, "v1", StoredVideo);
    ScenarioExtract();
    ScenarioSaving();
    ScenarioCommitted();
    var saved;
    assert DeletionsDone(Some(DeleteOldFile(0)), 1) == 0;
    assert ["old.mp4"][..0] == [];
    saved, threw := video.Update(NewUpload, Some(DeleteOldFile(0)));
    CorrectedKeepsNewFiles(TablesBefore, StoredVideo, NewUpload, Some(DeleteOldFile(0)), {"v1/old.mp4"}, "v1", "video_file", 0);
    rowValue := db.tables.videos["v1"]["video_file"];
    stored := RelativePath("v1", "new.mp4") in disk.paths;
  }
}
