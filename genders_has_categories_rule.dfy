/**
 * The validation rule that checks that the submitted genders together cover
 * every requested category through the category_gender join table.
 */
module GendersHasCategoriesRule {

  type CategoryId = string
  type GenderId = string

  /** One row of the category_gender join table. */
  datatype CategoryGender = CategoryGender(categoryId: CategoryId, genderId: GenderId)

  /** The value the rule is asked about: an array of gender ids, or anything else. */
  datatype RuleValue = IdArray(ids: seq<GenderId>) | NotAnArray

  predicate NoDuplicates<T(==)>(s: seq<T>) {
    forall i, j :: 0 <= i < j < |s| ==> s[i] != s[j]
  }

  function Elems<T>(s: seq<T>): set<T> {
    set x | x in s
  }

  /** PHP's array_unique: keeps the first occurrence of each value, in order. */
  function Unique<T(==,!new)>(s: seq<T>): (r: seq<T>)
    ensures NoDuplicates(r)
    ensures forall x :: x in r <==> x in s
    ensures |r| <= |s|
  {
    if s == [] then []
    else
      var prefix := Unique(s[..|s| - 1]);
      if s[|s| - 1] in prefix then prefix else prefix + [s[|s| - 1]]
  }

  /** The ids `passes` works on: a non-array value is taken as the empty list. */
  function IdsOf(value: RuleValue): seq<GenderId> {
    match value
    case IdArray(ids) => ids
    case NotAnArray => []
  }

  /**
   * The `category_id` column of the join rows of gender `g` whose category is
   * one of `cats`, in table order (duplicate rows give duplicate ids).
   */
  function RowsFor(table: seq<CategoryGender>, g: GenderId, cats: seq<CategoryId>): (r: seq<CategoryId>)
    ensures forall c :: c in r <==> CategoryGender(c, g) in table && c in cats
    ensures |r| <= |table|
  {
    if table == [] then []
    else
      var rest := RowsFor(table[1..], g, cats);
      if table[0].genderId == g && table[0].categoryId in cats then [table[0].categoryId] + rest else rest
  }

  /** Category `c` is grouped by at least one of `genders`. */
  predicate Linked(table: seq<CategoryGender>, c: CategoryId, genders: set<GenderId>) {
    exists g :: g in genders && CategoryGender(c, g) in table
  }

  /** Gender `g` groups at least one of `cats`. */
  predicate Groups(table: seq<CategoryGender>, g: GenderId, cats: set<CategoryId>) {
    exists c :: c in cats && CategoryGender(c, g) in table
  }

  /** Everything `array_push` accumulates over the genders, in loop order. */
  function Found(table: seq<CategoryGender>, cats: seq<CategoryId>, genders: seq<GenderId>): (r: seq<CategoryId>)
    ensures Elems(r) <= Elems(cats)
  {
    if genders == [] then []
    else
      var prefix, rows := Found(table, cats, genders[..|genders| - 1]), RowsFor(table, genders[|genders| - 1], cats);
      assert Elems(prefix + rows) == Elems(prefix) + Elems(rows);
      prefix + rows
  }

  /** The categories found are exactly the requested ones some gender is linked to. */
  lemma {:induction false} FoundExactly(table: seq<CategoryGender>, cats: seq<CategoryId>, genders: seq<GenderId>)
    ensures forall c :: c in Found(table, cats, genders) <==> c in cats && Linked(table, c, Elems(genders))
  {
    if genders != [] {
      var prefix, g := genders[..|genders| - 1], genders[|genders| - 1];
      FoundExactly(table, cats, prefix);
      assert Elems(genders) == Elems(prefix) + {g} by {
        assert genders == prefix + [g];
      }
    }
  }

  /**
   * The set-level meaning of the rule: both sets are non-empty, every gender
   * is linked to at least one requested category, and every requested
   * category is linked to at least one of the genders.
   */
  predicate Covers(cats: set<CategoryId>, genders: set<GenderId>, table: seq<CategoryGender>) {
    && cats != {}
    && genders != {}
    && (forall g :: g in genders ==> Groups(table, g, cats))
    && (forall c :: c in cats ==> Linked(table, c, genders))
  }

  lemma {:induction false} DistinctCardinality<T>(s: seq<T>)
    requires NoDuplicates(s)
    ensures |Elems(s)| == |s|
  {
    if s != [] {
      var p := s[..|s| - 1];
      DistinctCardinality(p);
      assert Elems(s) == Elems(p) + {s[|s| - 1]};
      assert s[|s| - 1] !in Elems(p);
    }
  }

  lemma SubsetOfSameSize<T>(a: set<T>, b: set<T>)
    requires a <= b && |a| == |b|
    ensures a == b
  {
    assert |b - a| == |b| - |a|;
  }

  /**
   * The source's final count comparison (after deduplication, the number of
   * categories found equals the number requested) holds exactly when every
   * requested category is linked to one of the genders.
   */
  lemma CountMatchesIffCovered(table: seq<CategoryGender>, cats: seq<CategoryId>, genders: seq<GenderId>)
    requires NoDuplicates(cats)
    ensures |Unique(Found(table, cats, genders))| == |cats|
        <==> forall c :: c in cats ==> Linked(table, c, Elems(genders))
  {
    var u := Unique(Found(table, cats, genders));
    FoundExactly(table, cats, genders);
    DistinctCardinality(u);
    DistinctCardinality(cats);
    assert Elems(u) <= Elems(cats);
    if |u| == |cats| {
      SubsetOfSameSize(Elems(u), Elems(cats));
      forall c | c in cats
        ensures Linked(table, c, Elems(genders))
      {
        assert c in Elems(cats);
        assert c in u;
      }
    }
    if forall c :: c in cats ==> Linked(table, c, Elems(genders)) {
      forall c | c in Elems(cats)
        ensures c in Elems(u)
      {
        assert c in u;
      }
      assert Elems(u) == Elems(cats);
    }
  }

  /**
   * When both lists are non-empty and every gender has join rows among the
   * requested categories, the count comparison decides coverage.
   */
  lemma CountDecidesCoverage(table: seq<CategoryGender>, cats: seq<CategoryId>, genders: seq<GenderId>)
    requires NoDuplicates(cats) && cats != [] && genders != []
    requires forall j :: 0 <= j < |genders| ==> RowsFor(table, genders[j], cats) != []
    ensures (|Unique(Found(table, cats, genders))| == |cats|) == Covers(Elems(cats), Elems(genders), table)
  {
    CountMatchesIffCovered(table, cats, genders);
    EveryGenderGroups(table, cats, genders);
    assert cats[0] in Elems(cats);
    assert genders[0] in Elems(genders);
  }

  /** Each gender with join rows among the requested categories groups one of them. */
  lemma EveryGenderGroups(table: seq<CategoryGender>, cats: seq<CategoryId>, genders: seq<GenderId>)
    requires forall j :: 0 <= j < |genders| ==> RowsFor(table, genders[j], cats) != []
    ensures forall g :: g in Elems(genders) ==> Groups(table, g, Elems(cats))
  {
    forall g | g in Elems(genders)
      ensures Groups(table, g, Elems(cats))
    {
      var j :| 0 <= j < |genders| && genders[j] == g;
      var c := RowsFor(table, g, cats)[0];
      assert c in RowsFor(table, g, cats);
      assert c in Elems(cats);
    }
  }

  lemma FoundStep(table: seq<CategoryGender>, cats: seq<CategoryId>, genders: seq<GenderId>, i: nat)
    requires i < |genders|
    ensures Found(table, cats, genders[..i + 1]) == Found(table, cats, genders[..i]) + RowsFor(table, genders[i], cats)
  {
    assert genders[..i + 1][..i] == genders[..i];
  }

  /** A gender with no join rows among the requested categories defeats coverage. */
  lemma BareGenderDefeatsCoverage(table: seq<CategoryGender>, cats: seq<CategoryId>, genders: seq<GenderId>, g: GenderId)
    requires g in genders && RowsFor(table, g, cats) == []
    ensures !Covers(Elems(cats), Elems(genders), table)
  {
    assert g in Elems(genders);
    forall c | c in Elems(cats)
      ensures CategoryGender(c, g) !in table
    {
      assert c !in RowsFor(table, g, cats);
    }
  }

  /** Dedup leaves a list that is already duplicate-free as it is. */
  lemma {:induction false} UniqueOfDistinct<T(!new)>(s: seq<T>)
    requires NoDuplicates(s)
    ensures Unique(s) == s
  {
    if s != [] {
      var p := s[..|s| - 1];
      UniqueOfDistinct(p);
      assert s[|s| - 1] !in p;
      assert p + [s[|s| - 1]] == s;
    }
  }

  /** Deduplicating twice is the same as deduplicating once. */
  lemma UniqueIdempotent<T(!new)>(s: seq<T>)
    ensures Unique(Unique(s)) == Unique(s)
  {
    UniqueOfDistinct(Unique(s));
  }

  /** The constructor's example: [1, 1, 2, 2] is held as [1, 2]. */
  lemma UniqueExample()
    ensures Unique(["1", "1", "2", "2"]) == ["1", "2"]
  {
    assert ["1", "1", "2", "2"][..3] == ["1", "1", "2"];
    assert ["1", "1", "2"][..2] == ["1", "1"];
    assert ["1", "1"][..1] == ["1"];
  }

  /**
   * Repeated join rows do not change the outcome of the count comparison:
   * only which rows occur matters.
   */
  lemma DuplicateRowsIrrelevant(t1: seq<CategoryGender>, t2: seq<CategoryGender>, cats: seq<CategoryId>, genders: seq<GenderId>)
    requires forall row :: row in t1 <==> row in t2
    ensures |Unique(Found(t1, cats, genders))| == |Unique(Found(t2, cats, genders))|
  {
    var u1 := Unique(Found(t1, cats, genders));
    var u2 := Unique(Found(t2, cats, genders));
    FoundExactly(t1, cats, genders);
    FoundExactly(t2, cats, genders);
    DistinctCardinality(u1);
    DistinctCardinality(u2);
    assert Elems(u1) == Elems(u2);
  }

  /**
   * Links from the genders to categories outside the request change nothing.
   */
  lemma OutsideLinksIrrelevant(table: seq<CategoryGender>, extra: seq<CategoryGender>, cats: set<CategoryId>, genders: set<GenderId>)
    requires forall row :: row in extra ==> row.categoryId !in cats
    ensures Covers(cats, genders, table + extra) == Covers(cats, genders, table)
  {
    forall c, g | c in cats
      ensures CategoryGender(c, g) in table + extra <==> CategoryGender(c, g) in table
    {
      if CategoryGender(c, g) in extra {
        assert false;
      }
    }
  }

  /** The join table of the feature test: g0 groups c0 and c1, g1 groups c2. */
  function FeatureTable(): seq<CategoryGender> {
    [CategoryGender("c0", "g0"), CategoryGender("c1", "g0"), CategoryGender("c2", "g1")]
  }

  /** Feature test: one gender covering the one category requested. */
  lemma ScenarioSingleGender()
    ensures Covers({"c2"}, {"g1"}, FeatureTable())
  {
    var t := FeatureTable();
    assert t[2] == CategoryGender("c2", "g1");
  }

  /** Feature test: two genders, each covering one of two categories. */
  lemma ScenarioTwoGenders()
    ensures Covers({"c0", "c2"}, {"g0", "g1"}, FeatureTable())
  {
    var t := FeatureTable();
    assert t[0] == CategoryGender("c0", "g0") && t[2] == CategoryGender("c2", "g1");
    assert Groups(t, "g0", {"c0", "c2"}) && Groups(t, "g1", {"c0", "c2"});
  }

  /** Feature test: one gender may cover several of the requested categories. */
  lemma ScenarioGenderWithSeveral()
    ensures Covers({"c0", "c1", "c2"}, {"g0", "g1"}, FeatureTable())
  {
    var t := FeatureTable();
    assert t[0] == CategoryGender("c0", "g0") && t[1] == CategoryGender("c1", "g0") && t[2] == CategoryGender("c2", "g1");
    assert Groups(t, "g0", {"c0", "c1", "c2"}) && Groups(t, "g1", {"c0", "c1", "c2"});
  }

  /**
   * Feature test: an unrelated gender, or a category no gender groups, makes
   * the rule fail.
   */
  lemma FeatureScenariosNotValid()
    ensures !Covers({"c0"}, {"g0", "g1"}, FeatureTable())
    ensures !Covers({"c3"}, {"g0"}, FeatureTable())
  {
    var t := FeatureTable();
    assert !Groups(t, "g1", {"c0"}) by {
      assert CategoryGender("c0", "g1") !in t;
    }
    assert !Linked(t, "c3", {"g0"}) by {
      assert CategoryGender("c3", "g0") !in t;
    }
  }

  class Rule {
    /** Requested category ids, deduplicated. */
    var categoriesId: seq<CategoryId>
    /** Gender ids of the last `Passes` call, deduplicated. */
    var gendersId: seq<GenderId>
    /** The category_gender table as the rule's queries see it. */
    const table: seq<CategoryGender>

    /** The requested ids are held deduplicated. */
    predicate Valid()
      reads this
    {
      NoDuplicates(categoriesId)
    }

    constructor (categoriesId: seq<CategoryId>, table: seq<CategoryGender>)
      ensures Valid()
      ensures this.categoriesId == Unique(categoriesId)
      ensures this.gendersId == []
      ensures this.table == table
    {
      this.categoriesId := Unique(categoriesId);
      this.gendersId := [];
      this.table := table;
    }

    /** getRows: the requested categories gender `genderId` is linked to, one per join row. */
    function GetRows(genderId: GenderId): (r: seq<CategoryId>)
      reads this
      ensures forall c :: c in r <==> c in categoriesId && CategoryGender(c, genderId) in table
    {
      RowsFor(table, genderId, categoriesId)
    }

    method Passes(value: RuleValue) returns (ok: bool)
      requires Valid()
      modifies this`gendersId
      ensures Valid()
      ensures gendersId == Unique(IdsOf(value))
      ensures value.NotAnArray? || gendersId == [] || categoriesId == [] ==> !ok
      ensures ok == Covers(Elems(categoriesId), Elems(gendersId), table)
    {
      gendersId := Unique(IdsOf(value));
      var cats, genders, tbl := categoriesId, gendersId, table;
      if |genders| == 0 || |cats| == 0 {
        assert Elems(genders) == {} || Elems(cats) == {};
        return false;
      }
      var categoriesFound: seq<CategoryId> := [];
      var i := 0;
      while i < |genders|
        invariant 0 <= i <= |genders|
        invariant gendersId == genders
        invariant categoriesFound == Found(tbl, cats, genders[..i])
        invariant forall j :: 0 <= j < i ==> RowsFor(tbl, genders[j], cats) != []
      {
        var rows := GetRows(genders[i]);
        assert rows == RowsFor(tbl, genders[i], cats);
        if |rows| == 0 {
          BareGenderDefeatsCoverage(tbl, cats, genders, genders[i]);
          return false;
        }
        FoundStep(tbl, cats, genders, i);
        categoriesFound := categoriesFound + rows;
        i := i + 1;
      }
      assert genders[..i] == genders;
      CountDecidesCoverage(tbl, cats, genders);
      ok := |Unique(categoriesFound)| == |cats|;
    }
  }
}
