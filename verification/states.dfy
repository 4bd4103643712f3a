/**
 The list of states offered for a season: the State column with missing
 cells dropped, each name stripped, empty names dropped, duplicates removed
 and the rest sorted ascending.
 */
module States {
  import opened Wrappers
  import opened Text
  import opened Lex
  import opened Seqs

  /** Strictly ascending: sorted and free of duplicates. */
  predicate StrictlyAscending(xs: seq<string>) {
    forall i, j :: 0 <= i < j < |xs| ==> Less(xs[i], xs[j])
  }

  /** Adds `t` to a strictly ascending list, unless it is already there. */
  function InsertUnique(t: string, xs: seq<string>): (r: seq<string>)
    requires StrictlyAscending(xs)
    ensures StrictlyAscending(r)
    ensures forall u :: u in r <==> u in xs || u == t
  {
    if |xs| == 0 then
      [t]
    else if t == xs[0] then
      xs
    else if Less(t, xs[0]) then
      forall j | 0 <= j < |xs|
        ensures Less(t, xs[j])
      {
        if j > 0 {
          LessTransitive(t, xs[0], xs[j]);
        }
      }
      [t] + xs
    else
      LessTotal(t, xs[0]);
      var rest := InsertUnique(t, xs[1..]);
      assert xs == [xs[0]] + xs[1..];
      forall k | 0 <= k < |rest|
        ensures Less(xs[0], rest[k])
      {
        assert rest[k] in xs[1..] || rest[k] == t;
      }
      [xs[0]] + rest
  }

  /** Sorts a list of names ascending and drops repeats, like `sorted(set(xs))`. */
  function Dedup(xs: seq<string>): (r: seq<string>)
    ensures StrictlyAscending(r)
    ensures forall u :: u in r <==> u in xs
  {
    if |xs| == 0 then [] else InsertUnique(xs[0], Dedup(xs[1..]))
  }

  /** One cell after `dropna`, `str.strip` and the non-empty filter. */
  function CleanCell(cell: Option<string>): (r: Option<string>)
    ensures r.Some? <==> cell.Some? && Strip(cell.value) != ""
    ensures r.Some? ==> r.value == Strip(cell.value)
  {
    match cell
    case None => None
    case Some(v) =>
      var t := Strip(v);
      if t == "" then None else Some(t)
  }

  /**
   The State column of one season's table reduced to the names offered to
   the user (a missing cell is None). The result is strictly ascending,
   holds only stripped non-empty names that occur in the column, and holds
   every one of them.
   */
  function CleanStates(cells: seq<Option<string>>): (r: seq<string>)
    ensures StrictlyAscending(r)
    ensures forall k :: 0 <= k < |r| ==> exists i :: 0 <= i < |cells| && CleanCell(cells[i]) == Some(r[k])
    ensures forall i :: 0 <= i < |cells| && CleanCell(cells[i]).Some? ==> CleanCell(cells[i]).value in r
  {
    var kept := FilterMap(cells, CleanCell);
    var r := Dedup(kept);
    forall k | 0 <= k < |r|
      ensures exists i :: 0 <= i < |cells| && CleanCell(cells[i]) == Some(r[k])
    {
      assert r[k] in kept;
      InFilterMap(cells, CleanCell, r[k]);
    }
    forall i | 0 <= i < |cells| && CleanCell(cells[i]).Some?
      ensures CleanCell(cells[i]).value in r
    {
      InFilterMap(cells, CleanCell, CleanCell(cells[i]).value);
    }
    r
  }

  /** Every name offered is non-empty and has no surrounding white space. */
  lemma CleanStatesAreStripped(cells: seq<Option<string>>)
    ensures forall k :: 0 <= k < |CleanStates(cells)| ==> CleanStates(cells)[k] != "" && Strip(CleanStates(cells)[k]) == CleanStates(cells)[k]
  {
    var r := CleanStates(cells);
    forall k | 0 <= k < |r|
      ensures r[k] != "" && Strip(r[k]) == r[k]
    {
      var i :| 0 <= i < |cells| && CleanCell(cells[i]) == Some(r[k]);
      StripIdempotent(cells[i].value);
    }
  }

  /**
   The states offered for a season, given the loader of its State column
   (None when the load raised): no states when the load fails or the sheet
   is empty, otherwise the cleaned column.
   */
  function StatesForSeason(season: string, column: string -> Option<seq<Option<string>>>): (r: seq<string>)
    ensures column(season).None? ==> r == []
    ensures column(season).Some? ==> r == CleanStates(column(season).value)
    ensures column(season).Some? && |column(season).value| == 0 ==> r == []
  {
    match column(season)
    case None => []
    case Some(cells) => CleanStates(cells)
  }

  /**
   The list depends only on which names occur: two columns offering the
   same cleaned names, in any order and with any repetition, give the same
   list.
   */
  lemma CleanStatesIgnoresOrder(a: seq<Option<string>>, b: seq<Option<string>>)
    requires forall u :: (exists i :: 0 <= i < |a| && CleanCell(a[i]) == Some(u)) <==>
                         (exists j :: 0 <= j < |b| && CleanCell(b[j]) == Some(u))
    ensures CleanStates(a) == CleanStates(b)
  {
    DedupIgnoresOrder(a, b, CleanCell);
  }

  /** Dedup after FilterMap depends only on the set of values produced. */
  lemma DedupIgnoresOrder<A>(a: seq<A>, b: seq<A>, f: A -> Option<string>)
    requires forall u :: (exists i :: 0 <= i < |a| && f(a[i]) == Some(u)) <==>
                         (exists j :: 0 <= j < |b| && f(b[j]) == Some(u))
    ensures Dedup(FilterMap(a, f)) == Dedup(FilterMap(b, f))
  {
    var ka, kb := FilterMap(a, f), FilterMap(b, f);
    forall u
      ensures u in ka <==> u in kb
    {
      InFilterMap(a, f, u);
      InFilterMap(b, f, u);
    }
    StrictlyAscendingUnique(Dedup(ka), Dedup(kb));
  }

  /**
   Two strictly ascending lists with the same elements are equal: the
   cleaned list is the only sorted, duplicate-free arrangement of its names.
   */
  lemma {:induction false} StrictlyAscendingUnique(xs: seq<string>, ys: seq<string>)
    requires StrictlyAscending(xs) && StrictlyAscending(ys)
    requires forall u :: u in xs <==> u in ys
    ensures xs == ys
    decreases |xs|
  {
    assert |xs| > 0 ==> xs[0] in ys;
    assert |ys| > 0 ==> ys[0] in xs;
    if |xs| > 0 && |ys| > 0 {
      if xs[0] != ys[0] {
        assert xs[0] in ys;
        assert ys[0] in xs;
        var i :| 0 <= i < |ys| && ys[i] == xs[0];
        var j :| 0 <= j < |xs| && xs[j] == ys[0];
        assert i > 0 && j > 0;
        LessAsymmetric(ys[0], ys[i]);
      }
      var xt, yt := xs[1..], ys[1..];
      forall u
        ensures u in xt <==> u in yt
      {
        if u in xt {
          var k :| 0 <= k < |xt| && xt[k] == u;
          assert xs[k + 1] == u;
          LessIrreflexive(u);
          assert u in ys;
          var m :| 0 <= m < |ys| && ys[m] == u;
          assert m != 0;
          assert yt[m - 1] == u;
        }
        if u in yt {
          var k :| 0 <= k < |yt| && yt[k] == u;
          assert ys[k + 1] == u;
          LessIrreflexive(u);
          assert u in xs;
          var m :| 0 <= m < |xs| && xs[m] == u;
          assert m != 0;
          assert xt[m - 1] == u;
        }
      }
      StrictlyAscendingUnique(xt, yt);
      assert xs == [xs[0]] + xt && ys == [ys[0]] + yt;
    }
  }
}
