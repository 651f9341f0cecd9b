/** The question table as the handlers see it: `Question.query.order_by(Question.id)`,
    a sequence of records in ascending id order, and the filters applied to it. */
module Questions {
  import opened Wrappers

  /** A row of the question table; `question.format()` yields exactly these five fields. */
  datatype Question = Question(id: int, question: string, answer: string, category: int, difficulty: int)

  /** Ids strictly ascend along the sequence, so no id occurs twice. */
  predicate IdsAscending(rows: seq<Question>)
  {
    forall i, j :: 0 <= i < j < |rows| ==> rows[i].id < rows[j].id
  }

  /** `r` is the selection of the rows that satisfy `keep`, ordered by id. */
  ghost predicate IsOrderedSelection(r: seq<Question>, rows: seq<Question>, keep: Question -> bool)
  {
    IdsAscending(r) && forall q :: q in r <==> q in rows && keep(q)
  }

  /** `query.filter(condition)` on rows already ordered by id. */
  function Filter(rows: seq<Question>, keep: Question -> bool): (r: seq<Question>)
    ensures forall q :: q in r <==> q in rows && keep(q)
    ensures |r| <= |rows|
    ensures IdsAscending(rows) ==> IdsAscending(r)
  {
    if rows == [] then []
    else
      var rest := Filter(rows[1..], keep);
      MembersOfTail(rows);
      if keep(rows[0]) then
        ConsKeepsOrder(rows, rest);
        [rows[0]] + rest
      else rest
  }

  lemma MembersOfTail(rows: seq<Question>)
    requires rows != []
    ensures forall q :: q in rows <==> q == rows[0] || q in rows[1..]
  {
    assert rows == [rows[0]] + rows[1..];
  }

  /** Putting the head of an id-ordered sequence in front of an ordered part of its tail
      keeps the order. */
  lemma ConsKeepsOrder(rows: seq<Question>, rest: seq<Question>)
    requires rows != []
    requires IdsAscending(rows) ==> IdsAscending(rest)
    requires forall q :: q in rest ==> q in rows[1..]
    ensures IdsAscending(rows) ==> IdsAscending([rows[0]] + rest)
  {
    if IdsAscending(rows) {
      HeadIsLeast(rows);
      var s := [rows[0]] + rest;
      forall i, j | 0 <= i < j < |s|
        ensures s[i].id < s[j].id
      {
        assert s[j] == rest[j - 1];
        if i > 0 {
          assert s[i] == rest[i - 1];
        } else {
          assert rest[j - 1] in rows[1..];
        }
      }
    }
  }

  /** In an id-ordered sequence the first record has the smallest id, and the rest is ordered. */
  lemma HeadIsLeast(s: seq<Question>)
    requires IdsAscending(s) && s != []
    ensures IdsAscending(s[1..])
    ensures forall q :: q in s[1..] ==> s[0].id < q.id
  {
    forall q | q in s[1..]
      ensures s[0].id < q.id
    {
      var i :| 0 <= i < |s[1..]| && s[1..][i] == q;
      assert s[i + 1] == q;
    }
  }

  /** Two id-ordered sequences that hold the same records are the same sequence: an ordered
      selection is determined by which records it holds. */
  lemma {:induction false} OrderedSelectionIsUnique(a: seq<Question>, b: seq<Question>)
    requires IdsAscending(a) && IdsAscending(b)
    requires forall q :: q in a <==> q in b
    ensures a == b
  {
    if a != [] {
      assert a[0] in b;
      assert b[0] in a;
      HeadIsLeast(a);
      HeadIsLeast(b);
      assert a[0] == b[0] by {
        assert a[0] in b[1..] || a[0] == b[0];
        assert b[0] in a[1..] || a[0] == b[0];
      }
      assert forall q :: q in a[1..] <==> q in b[1..] by {
        assert forall q :: q in a <==> q == a[0] || q in a[1..];
        assert forall q :: q in b <==> q == b[0] || q in b[1..];
      }
      OrderedSelectionIsUnique(a[1..], b[1..]);
      assert a == [a[0]] + a[1..] && b == [b[0]] + b[1..];
    } else {
      NothingInIsEmpty(b);
    }
  }

  lemma NothingInIsEmpty(s: seq<Question>)
    ensures (forall q :: q !in s) ==> s == []
  {
    if s != [] {
      assert s[0] in s;
    }
  }

  /** `Filter` returns THE ordered selection: any id-ordered sequence holding exactly the rows
      that satisfy `keep` is its result. */
  lemma FilterIsOrderedSelection(rows: seq<Question>, keep: Question -> bool, r: seq<Question>)
    requires IdsAscending(rows)
    requires IsOrderedSelection(r, rows, keep)
    ensures Filter(rows, keep) == r
  {
    OrderedSelectionIsUnique(Filter(rows, keep), r);
  }

  /** The set of records in `rows`. */
  function Records(rows: seq<Question>): set<Question>
  {
    set q | q in rows
  }

  /** A sequence without repeated ids holds as many records as it is long. */
  lemma {:induction false} CountOfAscending(rows: seq<Question>)
    requires IdsAscending(rows)
    ensures |Records(rows)| == |rows|
  {
    if rows != [] {
      CountOfAscending(rows[1..]);
      assert Records(rows) == {rows[0]} + Records(rows[1..]);
      forall i | 0 <= i < |rows[1..]|
        ensures rows[1..][i] != rows[0]
      {
        assert rows[1..][i] == rows[i + 1];
      }
      assert rows[0] !in Records(rows[1..]);
    }
  }

  /** `len(query.filter(condition).all())` is the number of records that satisfy the condition,
      not a count bounded by any page. */
  lemma FilterCount(rows: seq<Question>, keep: Question -> bool)
    requires IdsAscending(rows)
    ensures |Filter(rows, keep)| == |set q | q in rows && keep(q)|
  {
    var r := Filter(rows, keep);
    CountOfAscending(r);
    assert Records(r) == set q | q in rows && keep(q);
  }

  /** `Question.query.filter(Question.id == id).one_or_none()`: the row with that id, if any. */
  function Lookup(rows: seq<Question>, id: int): (r: Option<Question>)
    ensures r.Some? ==> r.value in rows && r.value.id == id
    ensures r.None? ==> forall q :: q in rows ==> q.id != id
  {
    if rows == [] then None
    else if rows[0].id == id then Some(rows[0])
    else
      assert forall q :: q in rows ==> q == rows[0] || q in rows[1..];
      Lookup(rows[1..], id)
  }

  /** The condition that keeps every row but the one with this id. */
  function OtherThan(id: int): Question -> bool
  {
    (q: Question) => q.id != id
  }

  /** The table after `question.delete()`: every row but the one with this id. */
  function RemoveId(rows: seq<Question>, id: int): (r: seq<Question>)
    ensures forall q :: q in r <==> q in rows && q.id != id
    ensures |r| <= |rows|
    ensures IdsAscending(rows) ==> IdsAscending(r)
  {
    Filter(rows, OtherThan(id))
  }

  /** A contiguous run of an id-ordered sequence is id-ordered and holds only its records. */
  lemma RunOfOrdered(s: seq<Question>, a: nat, b: nat)
    requires IdsAscending(s) && a <= b <= |s|
    ensures IdsAscending(s[a..b])
    ensures forall q :: q in s[a..b] ==> q in s
  {
    forall i, j | 0 <= i < j < b - a
      ensures s[a..b][i].id < s[a..b][j].id
    {
      assert s[a..b][i] == s[a + i] && s[a..b][j] == s[a + j];
    }
    forall q | q in s[a..b]
      ensures q in s
    {
      var i :| 0 <= i < b - a && s[a..b][i] == q;
      assert s[a + i] == q;
    }
  }

  /** Cutting one record out of an id-ordered sequence keeps the rest in order. */
  lemma CutIsOrdered(rows: seq<Question>, k: nat)
    requires IdsAscending(rows) && k < |rows|
    ensures IdsAscending(rows[..k] + rows[k + 1..])
  {
    var cut := rows[..k] + rows[k + 1..];
    forall i, j | 0 <= i < j < |cut|
      ensures cut[i].id < cut[j].id
    {
      var i' := if i < k then i else i + 1;
      var j' := if j < k then j else j + 1;
      assert cut[i] == rows[i'] && cut[j] == rows[j'];
    }
  }

  /** In an id-ordered sequence, cutting out the record at `k` leaves exactly the records
      whose id differs from its id. */
  lemma CutHoldsOthers(rows: seq<Question>, k: nat)
    requires IdsAscending(rows) && k < |rows|
    ensures forall q :: q in rows[..k] + rows[k + 1..] <==> q in rows && q.id != rows[k].id
  {
    var cut := rows[..k] + rows[k + 1..];
    forall q
      ensures q in cut <==> q in rows && q.id != rows[k].id
    {
      if q in cut {
        var i :| 0 <= i < |cut| && cut[i] == q;
        var i' := if i < k then i else i + 1;
        assert rows[i'] == q && i' != k;
      }
      if q in rows && q.id != rows[k].id {
        var i :| 0 <= i < |rows| && rows[i] == q;
        if i < k { assert cut[i] == q; } else { assert cut[i - 1] == q; }
      }
    }
  }

  /** Deleting a present id cuts exactly that record out of its place: the rows before it
      and the rows after it stay, in order, and the table is one row shorter. */
  lemma RemovePresentId(rows: seq<Question>, id: int, k: nat)
    requires IdsAscending(rows)
    requires k < |rows| && rows[k].id == id
    ensures RemoveId(rows, id) == rows[..k] + rows[k + 1..]
    ensures |RemoveId(rows, id)| == |rows| - 1
    ensures rows[k] !in RemoveId(rows, id)
  {
    var cut := rows[..k] + rows[k + 1..];
    CutIsOrdered(rows, k);
    CutHoldsOthers(rows, k);
    assert IsOrderedSelection(cut, rows, OtherThan(id));
    FilterIsOrderedSelection(rows, OtherThan(id), cut);
  }

  /** Appending a record whose id exceeds every id in the table keeps it ordered by id. */
  lemma AppendLargerId(rows: seq<Question>, q: Question)
    requires IdsAscending(rows)
    requires forall p :: p in rows ==> p.id < q.id
    ensures IdsAscending(rows + [q])
  {
    forall i, j | 0 <= i < j < |rows + [q]|
      ensures (rows + [q])[i].id < (rows + [q])[j].id
    {
      if j == |rows| {
        assert rows[i] in rows;
      }
    }
  }
}
