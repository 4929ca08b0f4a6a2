/**
 The pair of views used for tracing. Enabling makes the pages that back the target range non-executable
 in the normal view and the only executable ones in the target view; disabling restores full access.
 */
module AutoTraceModel {
  import opened EptModel

  datatype Views = Views(normal: Ept, target: Ept)

  datatype Outcome = Outcome(ok: bool, views: Views)

  predicate ValidViews(v: Views) {
    Valid(v.normal) && Valid(v.target)
  }

  /** Whether one of the translated addresses lies in the page; an address of zero means "not translated". */
  predicate Backs(gpas: seq<nat>, page: nat) {
    |gpas| > 0 && (Backs(gpas[..|gpas| - 1], page) || (gpas[|gpas| - 1] != 0 && PageOf(gpas[|gpas| - 1]) == page))
  }

  lemma {:induction false} BacksExists(gpas: seq<nat>, page: nat)
    ensures Backs(gpas, page) <==> exists k :: 0 <= k < |gpas| && gpas[k] != 0 && PageOf(gpas[k]) == page
  {
    if |gpas| > 0 {
      var n := |gpas| - 1;
      BacksExists(gpas[..n], page);
      if k :| 0 <= k < |gpas| && gpas[k] != 0 && PageOf(gpas[k]) == page {
        if k < n {
          assert gpas[..n][k] == gpas[k];
        }
      }
      if Backs(gpas[..n], page) {
        var k :| 0 <= k < n && gpas[..n][k] != 0 && PageOf(gpas[..n][k]) == page;
        assert gpas[k] == gpas[..n][k];
      }
    }
  }

  /** Sets the execute permission of the entry of a page that is split. */
  function SetExecute(s: Ept, page: nat, execute: bool): Ept
    requires Sized(s) && page < PAGE_COUNT && IsSplit(s, page)
  {
    var leaf := s.ptes[Slot(s, page)];
    SetPte(s, Slot(s, page), leaf.(perm := leaf.perm.(execute := execute)))
  }

  function WithExecute(leaf: Leaf, execute: bool): Leaf {
    leaf.(perm := leaf.perm.(execute := execute))
  }

  lemma SetExecuteEffect(s: Ept, page: nat, execute: bool)
    requires Valid(s) && page < PAGE_COUNT && IsSplit(s, page)
    ensures var s' := SetExecute(s, page, execute);
            && Valid(s') && s'.pdes == s.pdes && s'.used == s.used && s'.hooks == s.hooks
            && Translate(s', page) == WithExecute(Translate(s, page), execute)
            && forall q: nat | q < PAGE_COUNT && q != page :: Translate(s', q) == Translate(s, q)
  {
    var leaf := s.ptes[Slot(s, page)];
    SetPteEffect(s, page, leaf.(perm := leaf.perm.(execute := execute)));
    assert s.pdes[page / 512].perm == RWX;
  }

  /** Both lookups are made before either result is checked; a failure restores full access everywhere. */
  function EnablePage(v: Views, gpa: nat): (o: Outcome)
    requires ValidViews(v)
  {
    if gpa == 0 then
      Outcome(true, v)
    else
      var page := PageOf(gpa);
      var normal, target := GetPteState(v.normal, page, true), GetPteState(v.target, page, true);
      if !CanGetPte(v.normal, page, true) || !CanGetPte(v.target, page, true) then
        Outcome(false, Views(WithPerm(normal, RWX), WithPerm(target, RWX)))
      else
        GetPteEffect(v.normal, page, true);
        GetPteEffect(v.target, page, true);
        Outcome(true, Views(SetExecute(normal, page, false), SetExecute(target, page, true)))
  }

  lemma EnablePageEffect(v: Views, gpa: nat, page: nat)
    requires ValidViews(v) && page < PAGE_COUNT
    ensures var o := EnablePage(v, gpa);
            && ValidViews(o.views)
            && o.views.normal.hooks == v.normal.hooks && o.views.target.hooks == v.target.hooks
            && Translate(o.views.normal, page) ==
               (if !o.ok then Translate(v.normal, page).(perm := RWX)
                else if gpa != 0 && PageOf(gpa) == page then WithExecute(Translate(v.normal, page), false)
                else Translate(v.normal, page))
            && Translate(o.views.target, page) ==
               (if !o.ok then Translate(v.target, page).(perm := RWX)
                else if gpa != 0 && PageOf(gpa) == page then WithExecute(Translate(v.target, page), true)
                else Translate(v.target, page))
  {
    if gpa != 0 {
      var p := PageOf(gpa);
      GetPteEffect(v.normal, p, true);
      GetPteEffect(v.target, p, true);
      var normal, target := GetPteState(v.normal, p, true), GetPteState(v.target, p, true);
      if CanGetPte(v.normal, p, true) && CanGetPte(v.target, p, true) {
        SetExecuteEffect(normal, p, false);
        SetExecuteEffect(target, p, true);
      } else {
        WithPermEffect(normal, RWX);
        WithPermEffect(target, RWX);
      }
    }
  }

  /** The loop over the pages of the target range; it stops at the first failure. */
  function EnablePages(v: Views, gpas: seq<nat>): (o: Outcome)
    requires ValidViews(v)
    ensures ValidViews(o.views)
  {
    if gpas == [] then
      Outcome(true, v)
    else
      var before := EnablePages(v, gpas[..|gpas| - 1]);
      if !before.ok then
        before
      else
        EnablePageEffect(before.views, gpas[|gpas| - 1], 0);
        EnablePage(before.views, gpas[|gpas| - 1])
  }

  lemma {:induction false} EnablePagesEffect(v: Views, gpas: seq<nat>, page: nat)
    requires ValidViews(v) && page < PAGE_COUNT
    ensures var o := EnablePages(v, gpas);
            && o.views.normal.hooks == v.normal.hooks && o.views.target.hooks == v.target.hooks
            && Translate(o.views.normal, page) ==
               (if !o.ok then Translate(v.normal, page).(perm := RWX)
                else if Backs(gpas, page) then WithExecute(Translate(v.normal, page), false)
                else Translate(v.normal, page))
            && Translate(o.views.target, page) ==
               (if !o.ok then Translate(v.target, page).(perm := RWX)
                else if Backs(gpas, page) then WithExecute(Translate(v.target, page), true)
                else Translate(v.target, page))
  {
    if gpas != [] {
      var n := |gpas| - 1;
      EnablePagesEffect(v, gpas[..n], page);
      var before := EnablePages(v, gpas[..n]);
      if before.ok {
        EnablePageEffect(before.views, gpas[n], page);
      }
    }
  }

  // ----- When a range can be enabled -----

  /** Every translated page of the range is below 512 GB. */
  predicate Below512G(gpas: seq<nat>) {
    forall k | 0 <= k < |gpas| && gpas[k] != 0 :: PageOf(gpas[k]) < 0x800_0000
  }

  /** The 2 MB entries that the translated pages of the range lie in and that are not split. */
  function Unsplit(s: Ept, gpas: seq<nat>): set<nat>
    requires Sized(s)
  {
    set k | 0 <= k < |gpas| && gpas[k] != 0 && PageOf(gpas[k]) < 0x800_0000 &&
            s.pdes[PageOf(gpas[k]) / 512].Large? :: PageOf(gpas[k]) / 512
  }

  /** As many tables are free as the range needs. */
  predicate TablesSuffice(s: Ept, gpas: seq<nat>)
    requires Sized(s)
  {
    |Unsplit(s, gpas)| <= 256 - s.used
  }

  /** What a successful enable of the range has split, and the tables that took. */
  predicate SplitFor(s: Ept, t: Ept, gpas: seq<nat>)
    requires Sized(s) && Sized(t)
  {
    && t.used == s.used + |Unsplit(s, gpas)|
    && forall d | 0 <= d < PDE_COUNT :: t.pdes[d].Large? <==> s.pdes[d].Large? && d !in Unsplit(s, gpas)
  }

  /** The entry that one more page of the range adds to those to be split. */
  lemma UnsplitNext(s: Ept, gpas: seq<nat>, n: nat)
    requires Sized(s) && n < |gpas|
    ensures var gpa, before := gpas[n], Unsplit(s, gpas[..n]);
            var d := PageOf(gpa) / 512;
            Unsplit(s, gpas[..n + 1]) ==
            if gpa != 0 && PageOf(gpa) < 0x800_0000 && s.pdes[d].Large? then before + {d} else before
  {
    var before, after := gpas[..n], gpas[..n + 1];
    forall d
      ensures d in Unsplit(s, before) ==> d in Unsplit(s, after)
    {
      if d in Unsplit(s, before) {
        var k :| 0 <= k < n && before[k] != 0 && PageOf(before[k]) < 0x800_0000 &&
                 s.pdes[PageOf(before[k]) / 512].Large? && PageOf(before[k]) / 512 == d;
        assert after[k] == before[k];
      }
    }
    forall d | d in Unsplit(s, after)
      ensures d in Unsplit(s, before) || (d == PageOf(gpas[n]) / 512 && gpas[n] != 0 && PageOf(gpas[n]) < 0x800_0000)
    {
      var k :| 0 <= k < n + 1 && after[k] != 0 && PageOf(after[k]) < 0x800_0000 &&
               s.pdes[PageOf(after[k]) / 512].Large? && PageOf(after[k]) / 512 == d;
      assert k < n ==> before[k] == after[k];
    }
    assert after[n] == gpas[n];
  }

  /** A lookup on the way: whether it succeeds, and what it splits. */
  lemma EnableLookup(s: Ept, t: Ept, gpas: seq<nat>, n: nat)
    requires Valid(s) && Valid(t) && n < |gpas| && gpas[n] != 0 && SplitFor(s, t, gpas[..n])
    ensures var page := PageOf(gpas[n]);
            && (CanGetPte(t, page, true) <==> page < 0x800_0000 && TablesSuffice(s, gpas[..n + 1]))
            && (CanGetPte(t, page, true) ==> SplitFor(s, GetPteState(t, page, true), gpas[..n + 1]))
  {
    UnsplitNext(s, gpas, n);
    var page, before := PageOf(gpas[n]), Unsplit(s, gpas[..n]);
    if page < PAGE_COUNT && s.pdes[page / 512].Large? {
      if page / 512 in before {
        assert before + {page / 512} == before;
      } else {
        assert t.pdes[page / 512].Large?;
        assert |before + {page / 512}| == |before| + 1;
      }
    }
  }

  /** One page of the range, after the first `n` were enabled. */
  lemma EnableNextSplits(v: Views, w: Views, gpas: seq<nat>, n: nat)
    requires ValidViews(v) && ValidViews(w) && n < |gpas|
    requires SplitFor(v.normal, w.normal, gpas[..n]) && SplitFor(v.target, w.target, gpas[..n])
    ensures var o, page := EnablePage(w, gpas[n]), PageOf(gpas[n]);
            && ValidViews(o.views)
            && (gpas[n] == 0 ==> o.ok && o.views == w)
            && (gpas[n] != 0 ==>
                  && (o.ok <==> page < 0x800_0000 && TablesSuffice(v.normal, gpas[..n + 1]) &&
                                TablesSuffice(v.target, gpas[..n + 1]))
                  && (o.ok ==> SplitFor(v.normal, o.views.normal, gpas[..n + 1]) &&
                               SplitFor(v.target, o.views.target, gpas[..n + 1])))
  {
    EnablePageEffect(w, gpas[n], 0);
    if gpas[n] != 0 {
      EnableLookup(v.normal, w.normal, gpas, n);
      EnableLookup(v.target, w.target, gpas, n);
    }
  }

  /** The need for tables only grows. */
  lemma UnsplitGrows(s: Ept, gpas: seq<nat>, n: nat)
    requires Sized(s) && n < |gpas| && TablesSuffice(s, gpas[..n + 1])
    ensures TablesSuffice(s, gpas[..n])
  {
    UnsplitNext(s, gpas, n);
    var before, after := Unsplit(s, gpas[..n]), Unsplit(s, gpas[..n + 1]);
    assert before <= after && after == before + (after - before);
  }

  predicate CanEnable(v: Views, gpas: seq<nat>)
    requires ValidViews(v)
  {
    Below512G(gpas) && TablesSuffice(v.normal, gpas) && TablesSuffice(v.target, gpas)
  }

  lemma Below512GNext(gpas: seq<nat>, n: nat)
    requires n < |gpas|
    ensures Below512G(gpas[..n + 1]) <==> Below512G(gpas[..n]) && (gpas[n] != 0 ==> PageOf(gpas[n]) < 0x800_0000)
  {
    var before, after := gpas[..n], gpas[..n + 1];
    assert after == before + [gpas[n]];
    if Below512G(after) {
      assert after[n] == gpas[n];
      forall k | 0 <= k < n && before[k] != 0
        ensures PageOf(before[k]) < 0x800_0000
      {
        assert after[k] == before[k];
      }
    }
  }

  lemma RangeNext(v: Views, gpas: seq<nat>, n: nat)
    requires ValidViews(v) && n < |gpas|
    ensures CanEnable(v, gpas[..n + 1]) ==> CanEnable(v, gpas[..n])
    ensures gpas[n] == 0 ==>
              Unsplit(v.normal, gpas[..n + 1]) == Unsplit(v.normal, gpas[..n]) &&
              Unsplit(v.target, gpas[..n + 1]) == Unsplit(v.target, gpas[..n])
    ensures Below512G(gpas[..n + 1]) <==> Below512G(gpas[..n]) && (gpas[n] != 0 ==> PageOf(gpas[n]) < 0x800_0000)
  {
    Below512GNext(gpas, n);
    UnsplitNext(v.normal, gpas, n);
    UnsplitNext(v.target, gpas, n);
    if CanEnable(v, gpas[..n + 1]) {
      UnsplitGrows(v.normal, gpas, n);
      UnsplitGrows(v.target, gpas, n);
    }
  }

  /**
   The page loop succeeds if and only if every translated page of the range is below 512 GB and each view has
   a free table for every 2 MB entry of the range that it has not split yet.
   */
  lemma {:induction false} EnablePagesOkIff(v: Views, gpas: seq<nat>)
    requires ValidViews(v)
    ensures var o := EnablePages(v, gpas);
            && (o.ok <==> CanEnable(v, gpas))
            && (o.ok ==> SplitFor(v.normal, o.views.normal, gpas) && SplitFor(v.target, o.views.target, gpas))
  {
    if gpas == [] {
      assert Unsplit(v.normal, gpas) == {} && Unsplit(v.target, gpas) == {};
    } else {
      var n := |gpas| - 1;
      assert gpas[..n + 1] == gpas;
      EnablePagesOkIff(v, gpas[..n]);
      RangeNext(v, gpas, n);
      var before := EnablePages(v, gpas[..n]);
      if before.ok {
        EnableNextSplits(v, before.views, gpas, n);
      }
    }
  }

  /** What a range needs depends on which entries are split and how many tables are used, and on nothing else. */
  lemma CanEnableSameSplits(v: Views, w: Views, gpas: seq<nat>)
    requires ValidViews(v) && ValidViews(w)
    requires v.normal.used == w.normal.used && v.target.used == w.target.used
    requires forall d | 0 <= d < PDE_COUNT :: v.normal.pdes[d].Large? == w.normal.pdes[d].Large?
    requires forall d | 0 <= d < PDE_COUNT :: v.target.pdes[d].Large? == w.target.pdes[d].Large?
    ensures CanEnable(v, gpas) <==> CanEnable(w, gpas)
  {
    assert Unsplit(v.normal, gpas) == Unsplit(w.normal, gpas) && Unsplit(v.target, gpas) == Unsplit(w.target, gpas);
  }

  lemma EnableOkIff(v: Views, gpas: seq<nat>)
    requires ValidViews(v)
    ensures EnableAutoTrace(v, gpas).ok <==> CanEnable(v, gpas)
  {
    WithPermEffect(v.target, RW);
    var start := v.(target := WithPerm(v.target, RW));
    EnablePagesOkIff(start, gpas);
    CanEnableSameSplits(v, start, gpas);
  }

  function EnableAutoTrace(v: Views, gpas: seq<nat>): (o: Outcome)
    requires ValidViews(v)
    ensures ValidViews(o.views)
  {
    WithPermEffect(v.target, RW);
    EnablePages(v.(target := WithPerm(v.target, RW)), gpas)
  }

  predicate FullAccess(s: Ept)
    requires Sized(s)
  {
    forall page: nat | page < PAGE_COUNT :: Translate(s, page).perm == RWX
  }

  predicate SameButPerm(s: Ept, t: Ept)
    requires Sized(s) && Sized(t)
  {
    forall page: nat | page < PAGE_COUNT :: Translate(t, page) == Translate(s, page).(perm := Translate(t, page).perm)
  }

  /** What one view grants while tracing: data access everywhere, execution inside or outside the range. */
  predicate GrantsExecute(s: Ept, gpas: seq<nat>, inside: bool)
    requires Sized(s)
  {
    forall page: nat | page < PAGE_COUNT :: Translate(s, page).perm == Perm(true, true, Backs(gpas, page) == inside)
  }

  /**
   Two-view complement: from a fully accessible normal view, a successful enable makes a page executable
   in the normal view iff it backs no translated page of the range, and in the target view iff it does;
   a failed one leaves both views fully accessible. Either way no translation changes.
   */
  lemma TwoViewComplement(v: Views, gpas: seq<nat>)
    requires ValidViews(v) && FullAccess(v.normal)
    ensures var o := EnableAutoTrace(v, gpas);
            && SameButPerm(v.normal, o.views.normal) && SameButPerm(v.target, o.views.target)
            && o.views.normal.hooks == v.normal.hooks && o.views.target.hooks == v.target.hooks
            && (o.ok ==> GrantsExecute(o.views.normal, gpas, false) && GrantsExecute(o.views.target, gpas, true))
            && (!o.ok ==> FullAccess(o.views.normal) && FullAccess(o.views.target))
  {
    WithPermEffect(v.target, RW);
    var w := v.(target := WithPerm(v.target, RW));
    var o := EnablePages(w, gpas);
    EnablePagesEffect(w, gpas, 0);
    forall page: nat | page < PAGE_COUNT
      ensures Translate(o.views.normal, page) ==
              Translate(v.normal, page).(perm := Translate(o.views.normal, page).perm)
      ensures Translate(o.views.target, page) ==
              Translate(v.target, page).(perm := Translate(o.views.target, page).perm)
      ensures o.ok ==> Translate(o.views.normal, page).perm == Perm(true, true, !Backs(gpas, page))
      ensures o.ok ==> Translate(o.views.target, page).perm == Perm(true, true, Backs(gpas, page))
      ensures !o.ok ==> Translate(o.views.normal, page).perm == RWX && Translate(o.views.target, page).perm == RWX
    {
      EnablePagesEffect(w, gpas, page);
    }
  }
}
