/**
 * Lists of (item, freq) pairs and databases of lists. Their C implementation
 * (array_lists.h, listdb.h) is not part of this model; only what the hashing
 * and mining code uses of them is modelled: a list is a sequence of items, a
 * database is a sequence of lists with a declared dimensionality, and
 * `listdb_push` appends a list.
 */
module Lists {

  datatype Item = Item(item: nat, freq: nat)

  type List = seq<Item>

  /** The item identifiers of a list, in order. */
  function ItemIds(l: List): (s: seq<nat>)
    ensures |s| == |l| && forall k :: 0 <= k < |l| ==> s[k] == l[k].item
  {
    seq(|l|, k requires 0 <= k < |l| => l[k].item)
  }

  /** The multiset of item identifiers held by a list. */
  function Ids(l: List): multiset<nat>
  {
    multiset(ItemIds(l))
  }

  /** The item identifiers of all the rows, row after row. */
  function Flatten(rows: seq<List>): seq<nat>
  {
    if rows == [] then [] else Flatten(rows[..|rows| - 1]) + ItemIds(rows[|rows| - 1])
  }

  /** The multiset of item identifiers held by all the rows together. */
  function RowsIds(rows: seq<List>): multiset<nat>
  {
    multiset(Flatten(rows))
  }

  /** Concatenation of a sequence of row sequences. */
  function Concat(rounds: seq<seq<List>>): (r: seq<List>)
    ensures |rounds| > 0 ==> r == Concat(rounds[..|rounds| - 1]) + rounds[|rounds| - 1]
  {
    if rounds == [] then [] else Concat(rounds[..|rounds| - 1]) + rounds[|rounds| - 1]
  }

  lemma {:induction false} FlattenConcat(a: seq<List>, b: seq<List>)
    ensures Flatten(a + b) == Flatten(a) + Flatten(b)
    decreases |b|
  {
    if b == [] {
      assert a + b == a;
    } else {
      var n := |b|;
      var ab := a + b;
      assert ab[..|ab| - 1] == a + b[..n - 1];
      assert ab[|ab| - 1] == b[n - 1];
      var x, y, z := Flatten(a), Flatten(b[..n - 1]), ItemIds(b[n - 1]);
      calc {
        Flatten(ab);
        Flatten(a + b[..n - 1]) + z;
        { FlattenConcat(a, b[..n - 1]); }
        (x + y) + z;
        { assert (x + y) + z == x + (y + z); }
        x + (y + z);
      }
    }
  }

  lemma FlattenSingle(row: List)
    ensures Flatten([row]) == ItemIds(row)
  {
    assert [row][..0] == [];
  }

  /** The identifiers held by two row sequences together are those of each. */
  lemma RowsIdsConcat(a: seq<List>, b: seq<List>)
    ensures RowsIds(a + b) == RowsIds(a) + RowsIds(b)
  {
    FlattenConcat(a, b);
  }

  lemma RowsIdsAppendRow(rows: seq<List>, row: List)
    ensures RowsIds(rows + [row]) == RowsIds(rows) + Ids(row)
  {
    FlattenConcat(rows, [row]);
    FlattenSingle(row);
  }

  lemma IdsAppend(l: List, x: Item)
    ensures Ids(l + [x]) == Ids(l) + multiset{x.item}
  {
    assert ItemIds(l + [x]) == ItemIds(l) + [x.item];
  }

  /** Every identifier held by a row counts in the rows' multiset of identifiers. */
  lemma RowsIdsHasItem(rows: seq<List>, r: nat, k: nat)
    requires r < |rows| && k < |rows[r]|
    ensures rows[r][k].item in RowsIds(rows)
  {
    assert rows == (rows[..r] + [rows[r]]) + rows[r + 1..];
    RowsIdsConcat(rows[..r] + [rows[r]], rows[r + 1..]);
    RowsIdsAppendRow(rows[..r], rows[r]);
    assert rows[r][k].item in Ids(rows[r]);
  }

  /** Every row's identifiers are among the rows' identifiers. */
  lemma RowsIdsHasRow(rows: seq<List>, r: nat)
    requires r < |rows|
    ensures Ids(rows[r]) <= RowsIds(rows)
  {
    assert rows == (rows[..r] + [rows[r]]) + rows[r + 1..];
    RowsIdsConcat(rows[..r] + [rows[r]], rows[r + 1..]);
    RowsIdsAppendRow(rows[..r], rows[r]);
  }

  /** Identifier x is held, once, by exactly one of the rows. */
  ghost predicate InExactlyOneRow(rows: seq<List>, x: nat)
  {
    exists r :: 0 <= r < |rows| && Ids(rows[r])[x] == 1 &&
      forall r' :: 0 <= r' < |rows| && r' != r ==> x !in Ids(rows[r'])
  }

  /** An identifier the rows hold nowhere is in none of them. */
  lemma AbsentFromRows(rows: seq<List>, x: nat)
    requires RowsIds(rows)[x] == 0
    ensures forall r :: 0 <= r < |rows| ==> x !in Ids(rows[r])
  {
    forall r | 0 <= r < |rows|
      ensures x !in Ids(rows[r])
    {
      RowsIdsHasRow(rows, r);
    }
  }

  /** A row appended without x keeps x in exactly one row. */
  lemma OneRowExtend(front: seq<List>, last: List, x: nat)
    requires InExactlyOneRow(front, x) && x !in Ids(last)
    ensures InExactlyOneRow(front + [last], x)
  {
    var rows := front + [last];
    var r :| 0 <= r < |front| && Ids(front[r])[x] == 1 &&
      forall r' :: 0 <= r' < |front| && r' != r ==> x !in Ids(front[r']);
    assert rows[r] == front[r];
    forall r' | 0 <= r' < |rows| && r' != r
      ensures x !in Ids(rows[r'])
    {
      if r' < |front| {
        assert rows[r'] == front[r'];
      }
    }
  }

  /** A row appended with x once, after rows without x, is the one row holding x. */
  lemma OneRowLast(front: seq<List>, last: List, x: nat)
    requires forall r :: 0 <= r < |front| ==> x !in Ids(front[r])
    requires Ids(last)[x] == 1
    ensures InExactlyOneRow(front + [last], x)
  {
    var rows := front + [last];
    assert rows[|front|] == last;
    forall r' | 0 <= r' < |rows| && r' != |front|
      ensures x !in Ids(rows[r'])
    {
      assert rows[r'] == front[r'];
    }
  }

  /** An identifier the rows hold once overall is held by exactly one row. */
  lemma {:induction false} OnceMeansOneRow(rows: seq<List>, x: nat)
    requires RowsIds(rows)[x] == 1
    ensures InExactlyOneRow(rows, x)
  {
    var n := |rows|;
    if n == 0 {
      assert false;
    } else {
      var front, last := rows[..n - 1], rows[n - 1];
      assert rows == front + [last];
      RowsIdsAppendRow(front, last);
      if Ids(last)[x] == 1 {
        AbsentFromRows(front, x);
        OneRowLast(front, last, x);
      } else {
        OnceMeansOneRow(front, x);
        OneRowExtend(front, last, x);
      }
    }
  }

  /** Appending one item to row `r` adds exactly that item's identifier. */
  lemma RowsIdsAppendItem(rows: seq<List>, r: nat, x: Item)
    requires r < |rows|
    ensures RowsIds(rows[r := rows[r] + [x]]) == RowsIds(rows) + multiset{x.item}
  {
    var rows' := rows[r := rows[r] + [x]];
    assert rows == (rows[..r] + [rows[r]]) + rows[r + 1..];
    assert rows' == (rows[..r] + [rows[r] + [x]]) + rows[r + 1..];
    RowsIdsConcat(rows[..r] + [rows[r]], rows[r + 1..]);
    RowsIdsConcat(rows[..r] + [rows[r] + [x]], rows[r + 1..]);
    RowsIdsAppendRow(rows[..r], rows[r]);
    RowsIdsAppendRow(rows[..r], rows[r] + [x]);
    IdsAppend(rows[r], x);
  }

  /** Deleting row `p` removes exactly that row's identifiers. */
  lemma RowsIdsRemoveAt(rows: seq<List>, p: nat)
    requires p < |rows|
    ensures RowsIds(rows[..p] + rows[p + 1..]) + Ids(rows[p]) == RowsIds(rows)
  {
    assert rows == (rows[..p] + [rows[p]]) + rows[p + 1..];
    RowsIdsConcat(rows[..p], rows[p + 1..]);
    RowsIdsConcat(rows[..p] + [rows[p]], rows[p + 1..]);
    RowsIdsAppendRow(rows[..p], rows[p]);
  }

  /** A non-empty row holds at least one identifier, so there are no more non-empty rows than identifiers. */
  lemma {:induction false} RowsBoundedByIds(rows: seq<List>)
    requires forall k :: 0 <= k < |rows| ==> rows[k] != []
    ensures |rows| <= |RowsIds(rows)|
  {
    if rows != [] {
      var n := |rows|;
      RowsBoundedByIds(rows[..n - 1]);
      RowsIdsAppendRow(rows[..n - 1], rows[n - 1]);
      assert rows == rows[..n - 1] + [rows[n - 1]];
      assert |Ids(rows[n - 1])| >= 1;
    }
  }

  /** The positions of the non-empty lists: the ids `l1lsh_store_listdb` stores. */
  function NonEmptyIds(lists: seq<List>): multiset<nat>
  {
    if lists == [] then multiset{}
    else NonEmptyIds(lists[..|lists| - 1]) + (if lists[|lists| - 1] != [] then multiset{|lists| - 1} else multiset{})
  }

  /** Each non-empty list's position occurs once, and nothing else occurs. */
  lemma {:induction false} NonEmptyIdsCount(lists: seq<List>, x: nat)
    ensures NonEmptyIds(lists)[x] == if x < |lists| && lists[x] != [] then 1 else 0
  {
    if lists != [] {
      var n := |lists|;
      NonEmptyIdsCount(lists[..n - 1], x);
    }
  }

  /** Taking one more list adds its position when it is non-empty. */
  lemma NonEmptyIdsPrefix(lists: seq<List>, i: nat)
    requires i < |lists|
    ensures NonEmptyIds(lists[..i + 1]) == NonEmptyIds(lists[..i]) + (if lists[i] != [] then multiset{i} else multiset{})
  {
    assert lists[..i + 1][..i] == lists[..i];
  }

  /** The positions 0 .. n - 1: the ids `lplsh_store_vectordb` stores. */
  function Positions(n: nat): multiset<nat>
  {
    if n == 0 then multiset{} else Positions(n - 1) + multiset{n - 1}
  }

  /** Each position below n occurs once, and nothing else occurs. */
  lemma {:induction false} PositionsCount(n: nat, x: nat)
    ensures Positions(n)[x] == if x < n then 1 else 0
  {
    if n > 0 {
      PositionsCount(n - 1, x);
    }
  }

  /** A database of lists, updated in place by `listdb_push`. */
  class ListDB {
    var lists: seq<List>
    var dim: nat

    /** `listdb_init`: no lists and dimensionality 0. */
    constructor Init()
      ensures lists == [] && dim == 0
    {
      lists := [];
      dim := 0;
    }

    /** `listdb_push`: the list becomes the last one. */
    method Push(l: List)
      modifies this
      ensures lists == old(lists) + [l] && dim == old(dim)
    {
      lists := lists + [l];
    }
  }
}
