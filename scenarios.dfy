/**
  The data of the component's tests (src/__tests__/index.test.tsx:12-17):
  three rows under the headers Name, Age and Email, with page sizes 2 and 10,
  and the sort by Name in both directions.
 */
module Scenarios {
  import opened StringOrder
  import opened RowSort
  import opened Pagination
  import opened TableState

  const John: Row := ["John Doe", "28", "john@example.com"]
  const Jane: Row := ["Jane Smith", "34", "jane@example.com"]
  const Alice: Row := ["Alice", "25", "alice@example.com"]

  const TestRows: seq<Row> := [John, Jane, Alice]

  /** With two rows per page the three rows need a footer: "Showing 1 to 2 of 3", Previous disabled, Next enabled. */
  lemma ThreeRowsTwoPerPage()
    ensures FooterShown(|TestRows|, 2)
    ensures TotalPages(|TestRows|, 2) == 2
    ensures FooterFrom(1, 2) == 1 && FooterTo(1, 2, |TestRows|) == 2
    ensures PrevDisabled(1) && !NextDisabled(1, TotalPages(|TestRows|, 2))
    ensures VisibleRows(TestRows, 1, 2) == [John, Jane] && VisibleRows(TestRows, 2, 2) == [Alice]
  {
  }

  /** With ten rows per page the three rows fit on one page and the footer is not rendered. */
  lemma ThreeRowsTenPerPage()
    ensures !FooterShown(|TestRows|, 10)
    ensures TotalPages(|TestRows|, 10) == 1
    ensures VisibleRows(TestRows, 1, 10) == TestRows
  {
  }

  /** Every row of a permutation of the test rows is one of the three, and each of the three occurs. */
  lemma PermutationMembers(s: seq<Row>)
    requires multiset(s) == multiset(TestRows)
    ensures |s| == 3
    ensures forall k :: 0 <= k < |s| ==> s[k] == John || s[k] == Jane || s[k] == Alice
    ensures Alice in s && Jane in s && John in s
  {
    assert |multiset(s)| == 3;
    forall k | 0 <= k < |s|
      ensures s[k] == John || s[k] == Jane || s[k] == Alice
    {
      assert s[k] in multiset(s);
    }
    assert Alice in multiset(s) && Jane in multiset(s) && John in multiset(s);
  }

  /** Sorting the test rows by Name ascending can only give Alice, Jane Smith, John Doe. */
  lemma {:induction false} NameAscendingOrder(s: seq<Row>)
    requires multiset(s) == multiset(TestRows)
    requires AllHaveColumn(s, 0) && Ordered(s, 0, Asc)
    ensures s == [Alice, Jane, John]
  {
    PermutationMembers(s);
    TextOrderExamples();
    LexLessAsymmetric("Alice", "Jane Smith");
    LexLessAsymmetric("Jane Smith", "John Doe");
    LexLessTransitive("Alice", "Jane Smith", "John Doe");
    LexLessAsymmetric("Alice", "John Doe");
  }

  /** Sorting the test rows by Name descending can only give John Doe, Jane Smith, Alice. */
  lemma {:induction false} NameDescendingOrder(s: seq<Row>)
    requires multiset(s) == multiset(TestRows)
    requires AllHaveColumn(s, 0) && Ordered(s, 0, Desc)
    ensures s == [John, Jane, Alice]
  {
    PermutationMembers(s);
    TextOrderExamples();
    LexLessAsymmetric("Alice", "Jane Smith");
    LexLessAsymmetric("Jane Smith", "John Doe");
    LexLessTransitive("Alice", "Jane Smith", "John Doe");
    LexLessAsymmetric("Alice", "John Doe");
  }

  /**
    The test's table with the default page size: activating Name once sorts
    ascending, activating it again sorts descending, and the page stays 1.
   */
  method ActivateNameTwice() returns (first: seq<Row>, second: seq<Row>, key: Option<(nat, Dir)>, page: nat)
    ensures first == [Alice, Jane, John]
    ensures second == [John, Jane, Alice]
    ensures key == Some((0, Desc)) && page == 1
  {
    var t := new Table.WithDefaultPageSize(TestRows);
    assert AllHaveColumn(t.rows, 0);
    t.HeaderClick(0);
    NameAscendingOrder(t.rows);
    first := t.rows;
    assert AllHaveColumn(t.rows, 0);
    t.HeaderClick(0);
    NameDescendingOrder(t.rows);
    second := t.rows;
    key := t.sortKey;
    page := t.page;
  }

  /**
    The test's table with two rows per page: Next moves to page 2, which shows
    Alice alone; Next is then disabled, and Previous returns to page 1.
   */
  method PageThroughTwoPerPage() returns (second: seq<Row>, afterExtraNext: nat, back: nat)
    ensures second == [Alice]
    ensures afterExtraNext == 2
    ensures back == 1
  {
    var t := new Table(TestRows, 2);
    t.Next();
    second := t.CurrentRows();
    t.Next();
    afterExtraNext := t.page;
    t.Prev();
    back := t.page;
  }
}
