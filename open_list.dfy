/**
  The search's open list, a `std::set<pPair>` of (f, (row, col)) entries kept
  in ascending lexicographic order without duplicates.
*/
module OpenSet {
  import opened Grid

  /** The header's `pPair`: an f value and the cell it belongs to. */
  datatype Entry = Entry(f: real, cell: Coord)

  /** The set's ordering: by f, then row, then column. */
  predicate Less(a: Entry, b: Entry)
  {
    a.f < b.f ||
    (a.f == b.f && (a.cell.row < b.cell.row || (a.cell.row == b.cell.row && a.cell.col < b.cell.col)))
  }

  /** Less is a strict total order on entries, so the least entry of a set is unique. */
  lemma LessIsStrictTotalOrder(a: Entry, b: Entry, c: Entry)
    ensures !Less(a, a)
    ensures Less(a, b) && Less(b, c) ==> Less(a, c)
    ensures a != b ==> Less(a, b) || Less(b, a)
    ensures Less(a, b) ==> !Less(b, a)
  {
  }

  ghost predicate StrictlySorted(s: seq<Entry>)
  {
    forall i, j :: 0 <= i < j < |s| ==> Less(s[i], s[j])
  }

  class OpenList {
    var entries: seq<Entry>

    ghost predicate Valid()
      reads this
    {
      StrictlySorted(entries)
    }

    /** The entries as the set they stand for. */
    ghost function Elements(): set<Entry>
      reads this
    {
      set e | e in entries
    }

    constructor ()
      ensures Valid() && Elements() == {} && entries == []
    {
      entries := [];
    }

    /** openList.empty() */
    predicate IsEmpty()
      reads this
      ensures IsEmpty() <==> Elements() == {}
    {
      assert entries != [] ==> entries[0] in Elements();
      |entries| == 0
    }

    /** openList.insert(e): adds `e`; inserting an entry already present changes nothing. */
    method Insert(e: Entry)
      requires Valid()
      modifies this
      ensures Valid()
      ensures Elements() == old(Elements()) + {e}
      ensures e in old(Elements()) ==> entries == old(entries)
    {
      var i := 0;
      while i < |entries| && Less(entries[i], e)
        invariant 0 <= i <= |entries|
        invariant forall k :: 0 <= k < i ==> Less(entries[k], e)
      {
        i := i + 1;
      }
      if i < |entries| && entries[i] == e {
        return;
      }
      var s := entries[..i] + [e] + entries[i..];
      forall a, b | 0 <= a < b < |s|
        ensures Less(s[a], s[b])
      {
        if b == i {
          assert s[a] == entries[a];
        } else if a == i {
          assert s[b] == entries[b - 1];
          LessIsStrictTotalOrder(entries[i], e, entries[b - 1]);
          LessIsStrictTotalOrder(e, entries[i], entries[b - 1]);
        } else {
          assert s[a] == (if a < i then entries[a] else entries[a - 1]);
          assert s[b] == (if b < i then entries[b] else entries[b - 1]);
        }
      }
      assert forall x :: x in s <==> x in entries || x == e;
      entries := s;
    }

    /** `*openList.begin()` followed by `openList.erase(openList.begin())`. */
    method PopMin() returns (e: Entry)
      requires Valid() && !IsEmpty()
      modifies this
      ensures Valid()
      ensures e in old(Elements())
      ensures forall x :: x in old(Elements()) && x != e ==> Less(e, x)
      ensures Elements() == old(Elements()) - {e}
      ensures |entries| == |old(entries)| - 1
    {
      e := entries[0];
      assert forall x :: x in entries && x != e ==> x in entries[1..];
      assert forall k :: 0 < k < |entries| ==> entries[k] != e;
      entries := entries[1..];
    }
  }
}
