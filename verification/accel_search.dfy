/** The search box of the shortcut tree (gui/preferences.c): each search
    moves the cursor to the next row, in pre-order, whose translated text
    contains the search term, and wraps around after the last one. */
module AccelSearch {
  import opened Strings
  import opened AccelTree

  /** last_search_term and last_found_count of dt_gui_accel_search_t. */
  datatype SearchState = SearchState(lastTerm: Option<string>, lastFound: nat)

  function Shift(p: seq<nat>): seq<nat>
  {
    if |p| == 0 then p else [p[0] + 1] + p[1..]
  }

  function UnderAll(i: nat, ms: seq<seq<nat>>): (r: seq<seq<nat>>)
    ensures |r| == |ms| && forall k :: 0 <= k < |ms| ==> r[k] == [i] + ms[k]
  {
    if |ms| == 0 then [] else [[i] + ms[0]] + UnderAll(i, ms[1..])
  }

  function ShiftAll(ms: seq<seq<nat>>): (r: seq<seq<nat>>)
    ensures |r| == |ms| && forall k :: 0 <= k < |ms| ==> r[k] == Shift(ms[k])
  {
    if |ms| == 0 then [] else [Shift(ms[0])] + ShiftAll(ms[1..])
  }

  /** The positions of the rows whose translated text contains `term`, in
      pre-order (a row before its children, children before later siblings). */
  function Matches(f: seq<Node>, term: string): (r: seq<seq<nat>>)
    ensures |f| > 0 && Contains(f[0].trans, term) ==> |r| > 0 && r[0] == [0]
    decreases f
  {
    if |f| == 0 then []
    else (if Contains(f[0].trans, term) then [[0]] else []) +
         UnderAll(0, Matches(f[0].children, term)) +
         ShiftAll(Matches(f[1..], term))
  }

  lemma ShiftPos(f: seq<Node>, p: seq<nat>)
    requires |f| > 0 && ValidPos(f[1..], p)
    ensures ValidPos(f, Shift(p)) && NodeAt(f, Shift(p)) == NodeAt(f[1..], p)
  {
    assert Shift(p)[1..] == p[1..];
  }

  /** Every position of `ms` is a row of `f` whose text contains `term`. */
  ghost predicate AllSound(f: seq<Node>, term: string, ms: seq<seq<nat>>)
  {
    forall k :: 0 <= k < |ms| ==> ValidPos(f, ms[k]) && Contains(NodeAt(f, ms[k]).trans, term)
  }

  /** Every listed position is a row of the forest whose text contains the term. */
  lemma {:induction false} MatchesSound(f: seq<Node>, term: string)
    ensures forall k :: 0 <= k < |Matches(f, term)| ==>
              ValidPos(f, Matches(f, term)[k]) && Contains(NodeAt(f, Matches(f, term)[k]).trans, term)
    decreases f
  {
    if |f| > 0 {
      var head: seq<seq<nat>> := if Contains(f[0].trans, term) then [[0]] else [];
      MatchesSound(f[0].children, term);
      MatchesSound(f[1..], term);
      var mc := Matches(f[0].children, term);
      var mr := Matches(f[1..], term);
      SoundUnder(f, term, mc);
      SoundShift(f, term, mr);
      SoundConcat(f, term, head, UnderAll(0, mc), ShiftAll(mr));
      assert AllSound(f, term, Matches(f, term));
    }
  }

  lemma SoundUnder(f: seq<Node>, term: string, mc: seq<seq<nat>>)
    requires |f| > 0 && AllSound(f[0].children, term, mc)
    ensures AllSound(f, term, UnderAll(0, mc))
  {
    forall k | 0 <= k < |mc| ensures ValidPos(f, UnderAll(0, mc)[k]) && Contains(NodeAt(f, UnderAll(0, mc)[k]).trans, term) {
      DescendPos(f, 0, mc[k]);
    }
  }

  lemma SoundShift(f: seq<Node>, term: string, mr: seq<seq<nat>>)
    requires |f| > 0 && AllSound(f[1..], term, mr)
    ensures AllSound(f, term, ShiftAll(mr))
  {
    forall k | 0 <= k < |mr| ensures ValidPos(f, ShiftAll(mr)[k]) && Contains(NodeAt(f, ShiftAll(mr)[k]).trans, term) {
      ShiftPos(f, mr[k]);
    }
  }

  lemma SoundConcat(f: seq<Node>, term: string, head: seq<seq<nat>>, a: seq<seq<nat>>, b: seq<seq<nat>>)
    requires |f| > 0 && head == (if Contains(f[0].trans, term) then [[0]] else [])
    requires AllSound(f, term, a) && AllSound(f, term, b)
    ensures AllSound(f, term, head + a + b)
  {
    var m := head + a + b;
    forall k | 0 <= k < |m| ensures ValidPos(f, m[k]) && Contains(NodeAt(f, m[k]).trans, term) {
      if k < |head| {
      } else if k < |head| + |a| {
        assert m[k] == a[k - |head|];
      } else {
        assert m[k] == b[k - |head| - |a|];
      }
    }
  }

  /** Every row whose text contains the term is listed. */
  lemma {:induction false} MatchesComplete(f: seq<Node>, term: string, pos: seq<nat>)
    requires ValidPos(f, pos) && Contains(NodeAt(f, pos).trans, term)
    ensures pos in Matches(f, term)
    decreases f
  {
    if pos[0] == 0 {
      if |pos| == 1 {
        InMatchesHead(f, term, pos);
      } else {
        NodeStep(f, pos);
        MatchesComplete(f[0].children, term, pos[1..]);
        InMatchesChild(f, term, pos);
      }
    } else {
      UnshiftPos(f, pos);
      MatchesComplete(f[1..], term, Unshift(pos));
      InMatchesRest(f, term, pos);
    }
  }

  /** The same position counted among the siblings after the first. */
  function Unshift(pos: seq<nat>): seq<nat>
    requires |pos| > 0 && pos[0] > 0
  {
    [pos[0] - 1] + pos[1..]
  }

  /** A position past the first top-level row is one of the later siblings'. */
  lemma UnshiftPos(f: seq<Node>, pos: seq<nat>)
    requires ValidPos(f, pos) && pos[0] > 0
    ensures ValidPos(f[1..], Unshift(pos)) && NodeAt(f[1..], Unshift(pos)) == NodeAt(f, pos)
  {
    assert Unshift(pos)[1..] == pos[1..];
  }

  lemma ShiftUnshift(pos: seq<nat>)
    requires |pos| > 0 && pos[0] > 0
    ensures Shift(Unshift(pos)) == pos
  {
    assert Unshift(pos)[1..] == pos[1..];
  }

  lemma InMatchesHead(f: seq<Node>, term: string, pos: seq<nat>)
    requires ValidPos(f, pos) && |pos| == 1 && pos[0] == 0 && Contains(NodeAt(f, pos).trans, term)
    ensures pos in Matches(f, term)
  {
    assert pos == [0];
    MatchAt(f, term, 0);
  }

  lemma InMatchesChild(f: seq<Node>, term: string, pos: seq<nat>)
    requires |f| > 0 && |pos| > 1 && pos[0] == 0 && pos[1..] in Matches(f[0].children, term)
    ensures pos in Matches(f, term)
  {
    var mc := Matches(f[0].children, term);
    var k :| 0 <= k < |mc| && mc[k] == pos[1..];
    assert [0] + pos[1..] == pos;
    MatchAt(f, term, (if Contains(f[0].trans, term) then 1 else 0) + k);
  }

  lemma InMatchesRest(f: seq<Node>, term: string, pos: seq<nat>)
    requires |f| > 0 && |pos| > 0 && pos[0] > 0 && Unshift(pos) in Matches(f[1..], term)
    ensures pos in Matches(f, term)
  {
    var mr := Matches(f[1..], term);
    var k :| 0 <= k < |mr| && mr[k] == Unshift(pos);
    ShiftUnshift(pos);
    MatchAt(f, term, (if Contains(f[0].trans, term) then 1 else 0) + |Matches(f[0].children, term)| + k);
  }

  /** accel_search_children over a list of siblings: `curr` counts the
      matches met so far; the first match that takes the count past `last`
      is where the cursor goes. Yields that position and the final count. */
  function SearchForest(f: seq<Node>, term: string, curr: nat, last: nat): (r: (Option<seq<nat>>, nat))
    decreases f
  {
    if |f| == 0 then (None, curr)
    else
      var hit := Contains(f[0].trans, term);
      var c1 := if hit then curr + 1 else curr;
      if hit && c1 > last then (Some([0]), c1)
      else
        var inChildren := SearchForest(f[0].children, term, c1, last);
        if inChildren.0.Some? then (Some([0] + inChildren.0.value), inChildren.1)
        else
          var inRest := SearchForest(f[1..], term, inChildren.1, last);
          (if inRest.0.Some? then Some(Shift(inRest.0.value)) else None, inRest.1)
  }

  /** The count never goes down, and a found position is one of the forest's
      own rows, found once the count has passed `last`. */
  lemma {:induction false} SearchForestCounts(f: seq<Node>, term: string, curr: nat, last: nat)
    ensures var r := SearchForest(f, term, curr, last);
            r.1 >= curr && (r.0.Some? ==> r.1 > last && |r.0.value| > 0 && r.0.value[0] < |f|)
    decreases f
  {
    if |f| > 0 {
      var c1 := AfterHead(f, term, curr);
      if !(c1 > last && Contains(f[0].trans, term)) {
        SearchForestCounts(f[0].children, term, c1, last);
        var sc := SearchForest(f[0].children, term, c1, last);
        if sc.0.None? {
          SearchForestCounts(f[1..], term, sc.1, last);
        }
      }
    }
  }

  /** A search result `r`, started with `curr` matches counted, against the
      match list `m`: it is the match numbered `last - curr`, or nothing with
      all of `m` counted. */
  predicate Counted(m: seq<seq<nat>>, curr: nat, last: nat, r: (Option<seq<nat>>, nat))
  {
    if curr <= last && last - curr < |m| then r.0 == Some(m[last - curr])
    else r.0.None? && r.1 == curr + |m|
  }

  /** Starting with `curr` matches counted, the search finds the match
      numbered `last - curr` of the pre-order list, or runs out having
      counted all of them. */
  ghost predicate FindsNth(f: seq<Node>, term: string, curr: nat, last: nat)
  {
    Counted(Matches(f, term), curr, last, SearchForest(f, term, curr, last))
  }

  /** The count after the first row of a non-empty forest. */
  function AfterHead(f: seq<Node>, term: string, curr: nat): nat
    requires |f| > 0
  {
    if Contains(f[0].trans, term) then curr + 1 else curr
  }

  /** The recursive search finds the match numbered `last - curr` of the
      pre-order list, or runs out having counted all of them. */
  lemma {:induction false} SearchForestFinds(f: seq<Node>, term: string, curr: nat, last: nat)
    requires curr <= last
    ensures FindsNth(f, term, curr, last)
    decreases f
  {
    if |f| > 0 {
      var c1 := AfterHead(f, term, curr);
      if c1 > last {
        FindsHead(f, term, curr, last);
      } else {
        SearchForestFinds(f[0].children, term, c1, last);
        var sc := SearchForest(f[0].children, term, c1, last);
        if sc.0.Some? {
          FindsInChildren(f, term, curr, last);
        } else {
          SearchForestFinds(f[1..], term, sc.1, last);
          FindsInRest(f, term, curr, last);
        }
      }
    }
  }

  lemma FindsHead(f: seq<Node>, term: string, curr: nat, last: nat)
    requires |f| > 0 && curr <= last < AfterHead(f, term, curr)
    ensures FindsNth(f, term, curr, last)
  {
    MatchAt(f, term, 0);
  }

  lemma FindsInChildren(f: seq<Node>, term: string, curr: nat, last: nat)
    requires |f| > 0 && curr <= last && AfterHead(f, term, curr) <= last
    requires FindsNth(f[0].children, term, AfterHead(f, term, curr), last)
    requires SearchForest(f[0].children, term, AfterHead(f, term, curr), last).0.Some?
    ensures FindsNth(f, term, curr, last)
  {
    var c1 := AfterHead(f, term, curr);
    var sc := SearchForest(f[0].children, term, c1, last);
    var mc := Matches(f[0].children, term);
    assert SearchForest(f, term, curr, last) == (Some([0] + sc.0.value), sc.1);
    assert last - c1 < |mc| && sc.0.value == mc[last - c1];
    MatchAt(f, term, (c1 - curr) + (last - c1));
  }

  lemma FindsInRest(f: seq<Node>, term: string, curr: nat, last: nat)
    requires |f| > 0 && curr <= last && AfterHead(f, term, curr) <= last
    requires FindsNth(f[0].children, term, AfterHead(f, term, curr), last)
    requires SearchForest(f[0].children, term, AfterHead(f, term, curr), last).0.None?
    requires FindsNth(f[1..], term, SearchForest(f[0].children, term, AfterHead(f, term, curr), last).1, last)
    ensures FindsNth(f, term, curr, last)
  {
    var c1 := AfterHead(f, term, curr);
    var mc := Matches(f[0].children, term);
    var rc := SearchForest(f[0].children, term, c1, last);
    var mr := Matches(f[1..], term);
    var rr := SearchForest(f[1..], term, rc.1, last);
    var m := Matches(f, term);
    SearchPastChildren(f, term, curr, last);
    var k := if rc.1 <= last && last - rc.1 < |mr| then (c1 - curr) + |mc| + (last - rc.1) else 0;
    MatchAt(f, term, k);
    CountedRest(curr, last, c1 - curr, mc, mr, m, rc, rr, k);
  }

  /** The counting behind FindsInRest, over plain values. */
  lemma CountedRest(curr: nat, last: nat, h: nat, mc: seq<seq<nat>>, mr: seq<seq<nat>>, m: seq<seq<nat>>,
                    rc: (Option<seq<nat>>, nat), rr: (Option<seq<nat>>, nat), k: nat)
    requires curr + h <= last && Counted(mc, curr + h, last, rc) && rc.0.None? && Counted(mr, rc.1, last, rr)
    requires |m| == h + |mc| + |mr|
    requires k == (if rc.1 <= last && last - rc.1 < |mr| then h + |mc| + (last - rc.1) else 0)
    requires h + |mc| <= k < |m| ==> m[k] == Shift(mr[k - h - |mc|])
    ensures Counted(m, curr, last, (if rr.0.Some? then Some(Shift(rr.0.value)) else None, rr.1))
  {
  }

  /** Once the first row and its subtree hold no hit, the search goes on
      among the later siblings, positions shifted by one. */
  lemma SearchPastChildren(f: seq<Node>, term: string, curr: nat, last: nat)
    requires |f| > 0 && AfterHead(f, term, curr) <= last
    requires SearchForest(f[0].children, term, AfterHead(f, term, curr), last).0.None?
    ensures var sr := SearchForest(f[1..], term, SearchForest(f[0].children, term, AfterHead(f, term, curr), last).1, last);
            SearchForest(f, term, curr, last) == (if sr.0.Some? then Some(Shift(sr.0.value)) else None, sr.1)
  {
  }

  /** The entry `k` of a non-empty forest's match list, read off the three
      parts of Matches: the first row itself, its subtree, the later siblings. */
  lemma MatchAt(f: seq<Node>, term: string, k: nat)
    requires |f| > 0
    ensures var h := if Contains(f[0].trans, term) then 1 else 0;
            var mc := Matches(f[0].children, term);
            var mr := Matches(f[1..], term);
            var m := Matches(f, term);
            |m| == h + |mc| + |mr| &&
            (k < h ==> m[k] == [0]) &&
            (h <= k < h + |mc| ==> m[k] == [0] + mc[k - h]) &&
            (h + |mc| <= k < |m| ==> m[k] == Shift(mr[k - h - |mc|]))
  {
  }

  /** accel_search: a new term restarts the count; the search then moves to
      the next matching row, or, past the last one, finds nothing and starts
      over on the next search. */
  function Search(tree: seq<Node>, term: string, st: SearchState): (r: (Option<seq<nat>>, SearchState))
    ensures var last := if st.lastTerm == Some(term) then st.lastFound else 0;
            var m := Matches(tree, term);
            if last < |m| then r == (Some(m[last]), SearchState(Some(term), last + 1))
            else r == (None, SearchState(Some(term), 0))
  {
    var last := if st.lastTerm == Some(term) then st.lastFound else 0;
    SearchForestFinds(tree, term, 0, last);
    var (found, _) := SearchForest(tree, term, 0, last);
    if found.Some? then (found, SearchState(Some(term), last + 1))
    else (None, SearchState(Some(term), 0))
  }

  /** Each search lands on a row whose text contains the term. */
  lemma SearchLandsOnMatch(tree: seq<Node>, term: string, st: SearchState)
    ensures Search(tree, term, st).0.Some? ==>
              ValidPos(tree, Search(tree, term, st).0.value) &&
              Contains(NodeAt(tree, Search(tree, term, st).0.value).trans, term)
  {
    MatchesSound(tree, term);
  }

  /** Every row whose text contains the term is where some search lands:
      the one made after that many earlier matches were found. */
  lemma SearchReaches(tree: seq<Node>, term: string, pos: seq<nat>)
    requires ValidPos(tree, pos) && Contains(NodeAt(tree, pos).trans, term)
    ensures exists n :: 0 <= n < |Matches(tree, term)| &&
              Search(tree, term, SearchState(Some(term), n)).0 == Some(pos)
  {
    MatchesComplete(tree, term, pos);
    var n :| 0 <= n < |Matches(tree, term)| && Matches(tree, term)[n] == pos;
    assert Search(tree, term, SearchState(Some(term), n)).0 == Some(pos);
  }
}
