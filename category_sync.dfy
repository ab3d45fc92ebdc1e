/**
 * The category sync: fetch a region's video categories and store them, one
 * row and one commit per category, stopping at the first failed commit.
 * The fetch result is taken as an input, and whether the commit of the
 * k-th category fails is given by the set `failing` of indices.
 */
module CategorySync {
  import opened Tables
  import opened Readers

  /** The `snippet` of one category item of the fetch result. */
  datatype CategorySnippet = CategorySnippet(title: string, assignable: bool, channelId: string)

  /** One element of the fetch result's `items`. */
  datatype CategoryItem = CategoryItem(id: string, snippet: CategorySnippet)

  /** The fetch result: anything that is not a dict, or a dict with its `items`. */
  datatype Fetched = NotADict | Payload(items: seq<CategoryItem>)

  /** The row written for one category item of region `regionCode`. */
  function CategoryRow(item: CategoryItem, regionCode: string): VideoCategoryRow {
    VideoCategoryRow(item.snippet.title, item.id, regionCode, item.snippet.assignable, item.snippet.channelId)
  }

  /** The rows for a run of category items, in item order. */
  function CategoryRows(items: seq<CategoryItem>, regionCode: string): seq<VideoCategoryRow> {
    seq(|items|, k requires 0 <= k < |items| => CategoryRow(items[k], regionCode))
  }

  /** The index of the first item from `from` on whose commit fails, or `n` if none does. */
  function FirstFailure(from: nat, n: nat, failing: set<nat>): (k: nat)
    requires from <= n
    ensures from <= k <= n
    ensures k < n ==> k in failing
    ensures forall j :: from <= j < k ==> j !in failing
    decreases n - from
  {
    if from == n then n
    else if from in failing then from
    else FirstFailure(from + 1, n, failing)
  }

  /** The database, with the tables the pipeline shares. */
  class Database {
    var tables: Store

    constructor (tables: Store)
      ensures this.tables == tables
    {
      this.tables := tables;
    }

    /**
     * Stores the fetched categories of `regionCode`. A fetch result that is
     * not a dict writes nothing and answers `False`. Otherwise the items are
     * committed one by one; the first failed commit ends the call with
     * `False`, the items before it staying committed and the ones after it
     * not attempted. The other tables are left as they were.
     */
    method SaveVideoCategories(fetched: Fetched, regionCode: string, failing: set<nat>) returns (ok: bool)
      modifies this
      ensures fetched.NotADict? ==> !ok && tables == old(tables)
      ensures fetched.Payload? ==>
        var k := FirstFailure(0, |fetched.items|, failing);
        && ok == (k == |fetched.items|)
        && tables == old(tables).(videoCategory :=
             old(tables.videoCategory) + CategoryRows(fetched.items[..k], regionCode))
    {
      if !fetched.Payload? {
        return false;
      }
      var items := fetched.items;
      ghost var k := FirstFailure(0, |items|, failing);
      for i := 0 to |items|
        invariant i <= k
        invariant tables == old(tables).(videoCategory :=
          old(tables.videoCategory) + CategoryRows(items[..i], regionCode))
      {
        if i in failing {
          return false;
        }
        assert CategoryRows(items[..i + 1], regionCode) == CategoryRows(items[..i], regionCode) + [CategoryRow(items[i], regionCode)];
        tables := tables.(videoCategory := tables.videoCategory + [CategoryRow(items[i], regionCode)]);
      }
      assert items[..|items|] == items;
      return true;
    }
  }

  /**
   * After categories are stored, the category reader of their region
   * answers every assignable one among them, and nothing that is neither
   * assignable in the new rows nor already assignable before.
   */
  lemma SavedCategoriesAreRead(before: Store, items: seq<CategoryItem>, regionCode: string)
    ensures
      var after := before.(videoCategory := before.videoCategory + CategoryRows(items, regionCode));
      var q := GetDbVideoCategory(after, false, regionCode);
      && (forall k :: 0 <= k < |items| && items[k].snippet.assignable ==> items[k].id in q.rows)
      && (forall id :: id in q.rows ==>
            AssignableCategory(before, regionCode, id)
            || exists k :: 0 <= k < |items| && items[k].snippet.assignable && items[k].id == id)
  {
    var rows := CategoryRows(items, regionCode);
    var after := before.(videoCategory := before.videoCategory + rows);
    var q := GetDbVideoCategory(after, false, regionCode);
    forall k | 0 <= k < |items| && items[k].snippet.assignable
      ensures items[k].id in q.rows
    {
      assert rows[k] in after.videoCategory by {
        assert after.videoCategory[|before.videoCategory| + k] == rows[k];
      }
    }
    forall id | id in q.rows
      ensures AssignableCategory(before, regionCode, id)
              || exists k :: 0 <= k < |items| && items[k].snippet.assignable && items[k].id == id
    {
      var r :| r in after.videoCategory && r.regionCode == regionCode && r.assignable && r.categoryId == id;
      if r !in before.videoCategory {
        var k :| 0 <= k < |rows| && rows[k] == r;
        assert items[k].snippet.assignable && items[k].id == id;
      }
    }
  }
}
