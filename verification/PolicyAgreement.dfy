/**
 Mappings that have a local policy and share a global one. Each policy evicts through
 Mapping::evict, which tells the other policy; the other one asserts that the segment is
 in its list. Over every run the local list of a mapping is the global list restricted
 to that mapping, so the assertion never fails while every limit holds one segment.
 */
module PolicyAgreement {
  import opened PolicyLists
  import opened Wrappers

  /** Mappings without entry in `locals` only use the global policy; `sizes` gives the
      segment size of every registered mapping; `mapped` are the resident segments. */
  datatype Group = Group(sizes: map<nat, nat>, locals: map<nat, Policy>, global: Policy, mapped: set<Seg>)

  datatype Op =
    | Touch(s: Seg)           // a fault on the segment, then both policies are notified
    | Unmap(s: Seg)           // dropClean or an evicting flush: the policies are not told
    | Register(mapping: nat, size: nat, local: Option<nat>)
    | Free(mapping: nat)

  // ---- restriction of a list to a mapping ------------------------------------------

  function Restrict(list: seq<Seg>, m: nat): (r: seq<Seg>)
    ensures forall x {:trigger x in r} :: x in r <==> x in list && x.mapping == m
  {
    if list == [] then []
    else
      var n := |list| - 1;
      var r := Restrict(list[..n], m);
      if list[n].mapping == m then r + [list[n]] else r
  }

  lemma {:induction false} RestrictConcat(a: seq<Seg>, b: seq<Seg>, m: nat)
    ensures Restrict(a + b, m) == Restrict(a, m) + Restrict(b, m)
  {
    if b == [] {
      assert a + b == a;
    } else {
      var n := |b| - 1;
      assert (a + b)[..|a + b| - 1] == a + b[..n];
      RestrictConcat(a, b[..n], m);
    }
  }

  lemma {:induction false} RestrictRemove(list: seq<Seg>, s: Seg, m: nat)
    ensures Restrict(Remove(list, s), m)
         == if s.mapping == m then Remove(Restrict(list, m), s) else Restrict(list, m)
  {
    if list != [] {
      var n := |list| - 1;
      RestrictRemove(list[..n], s, m);
      var r, q := Remove(list[..n], s), Restrict(list[..n], m);
      if list[n] != s { assert (r + [list[n]])[..|r|] == r; }
      assert (q + [list[n]])[..|q|] == q;
    }
  }

  lemma {:induction false} RestrictTouched(list: seq<Seg>, s: Seg, m: nat)
    ensures Restrict(Touched(list, s), m)
         == if s.mapping == m then Touched(Restrict(list, m), s) else Restrict(list, m)
  {
    RestrictConcat([s], Remove(list, s), m);
    RestrictRemove(list, s, m);
    RestrictOne(s, m);
    if s.mapping != m { assert [] + Restrict(list, m) == Restrict(list, m); }
  }

  lemma {:induction false} RestrictOne(s: Seg, m: nat)
    ensures Restrict([s], m) == if s.mapping == m then [s] else []
  {
    assert [s][..0] == [];
  }

  // ---- many removals -----------------------------------------------------------------

  lemma {:induction false} RemoveCommutes(list: seq<Seg>, s: Seg, t: Seg)
    ensures Remove(Remove(list, s), t) == Remove(Remove(list, t), s)
  {
    if list != [] {
      var n := |list| - 1;
      RemoveCommutes(list[..n], s, t);
      var a, b := Remove(list[..n], s), Remove(list[..n], t);
      assert (a + [list[n]])[..|a|] == a && (b + [list[n]])[..|b|] == b;
    }
  }

  lemma {:induction false} RemoveAllCommutes(list: seq<Seg>, s: Seg, gone: seq<Seg>)
    ensures Remove(RemoveAll(list, gone), s) == RemoveAll(Remove(list, s), gone)
    decreases |gone|
  {
    if gone != [] {
      RemoveCommutes(list, s, gone[0]);
      RemoveAllCommutes(Remove(list, gone[0]), s, gone[1..]);
    }
  }

  /** Removals of other segments do not touch the newest one. */
  lemma {:induction false} RemoveAllTail(s: Seg, list: seq<Seg>, gone: seq<Seg>)
    requires s !in gone
    ensures RemoveAll([s] + list, gone) == [s] + RemoveAll(list, gone)
    decreases |gone|
  {
    if gone != [] {
      RemovePrepend(s, list, gone[0]);
      RemoveAllTail(s, Remove(list, gone[0]), gone[1..]);
    }
  }

  lemma {:induction false} RemovePrepend(s: Seg, list: seq<Seg>, t: Seg)
    requires s != t
    ensures Remove([s] + list, t) == [s] + Remove(list, t)
  {
    if list == [] {
      assert [s] + list == [s] && [s][..0] == [];
    } else {
      var n := |list| - 1;
      assert ([s] + list)[..|[s] + list| - 1] == [s] + list[..n];
      RemovePrepend(s, list[..n], t);
    }
  }

  /** One round of the eviction loop. */
  lemma {:induction false} EvictLast(list: seq<Seg>, limit: nat)
    requires Total(list) > limit
    ensures list != []
    ensures var n := |list| - 1;
      Kept(list, limit) == Kept(list[..n], limit) && Victims(list, limit) == [list[n]] + Victims(list[..n], limit)
  {
    var n, k := |list| - 1, Survivors(list, limit);
    assert list[k..][..n - k] == list[..n][k..];
    assert list[..n][..k] == list[..k];
  }

  lemma {:induction false} RemoveLast(list: seq<Seg>)
    requires NoDup(list) && list != []
    ensures Remove(list, list[|list| - 1]) == list[..|list| - 1]
  {
    RemoveAt(list, |list| - 1);
  }

  lemma {:induction false} RemoveAllFirst(list: seq<Seg>, v: Seg, gone: seq<Seg>)
    ensures RemoveAll(list, [v] + gone) == RemoveAll(Remove(list, v), gone)
  {
    assert ([v] + gone)[1..] == gone;
  }

  /** What the eviction loop keeps is the list without its victims. */
  lemma {:induction false} KeptIsRemoval(list: seq<Seg>, limit: nat)
    requires NoDup(list)
    ensures Kept(list, limit) == RemoveAll(list, Victims(list, limit))
  {
    if Total(list) <= limit {
      assert list[..|list|] == list && list[|list|..] == [];
    } else {
      EvictLast(list, limit);
      var n := |list| - 1;
      RemoveLast(list);
      RemoveAllFirst(list, list[n], Victims(list[..n], limit));
      KeptIsRemoval(list[..n], limit);
    }
  }

  lemma {:induction false} RestrictRemoveAll(list: seq<Seg>, gone: seq<Seg>, m: nat)
    ensures Restrict(RemoveAll(list, gone), m) == RemoveAll(Restrict(list, m), gone)
    decreases |gone|
  {
    if gone != [] {
      RestrictRemove(list, gone[0], m);
      RestrictRemoveAll(Remove(list, gone[0]), gone[1..], m);
      if gone[0].mapping != m { RemoveAbsent(Restrict(list, m), gone[0]); }
    }
  }

  // ---- the group ----------------------------------------------------------------------

  /** notifyEvict on the global policy for each victim; None when its assertion fails. */
  function NotifyGlobal(list: seq<Seg>, victims: seq<Seg>): Option<seq<Seg>>
    decreases |victims|
  {
    if victims == [] then Some(list)
    else if victims[0] !in list then None
    else NotifyGlobal(Remove(list, victims[0]), victims[1..])
  }

  /** notifyEvict on the local policy of each victim's mapping, if it has one. */
  function NotifyLocals(locals: map<nat, Policy>, victims: seq<Seg>): Option<map<nat, Policy>>
    decreases |victims|
  {
    if victims == [] then Some(locals)
    else
      var v := victims[0];
      if v.mapping !in locals then NotifyLocals(locals, victims[1..])
      else if v !in locals[v.mapping].list then None
      else
        var p := locals[v.mapping];
        NotifyLocals(locals[v.mapping := p.(list := Remove(p.list, v))], victims[1..])
  }

  function AsSet(list: seq<Seg>): (r: set<Seg>)
    ensures forall x :: x in r <==> x in list
  {
    set x | x in list
  }

  /** notifyTouch of the local policy and the evictions it orders. */
  function TouchLocal(g: Group, s: Seg): Option<Group> {
    if s.mapping !in g.locals then Some(g)
    else
      var p := g.locals[s.mapping];
      var t := Touched(p.list, s);
      var victims := Victims(t, p.limit);
      match NotifyGlobal(g.global.list, victims)
      case None => None
      case Some(list) =>
        Some(g.(locals := g.locals[s.mapping := p.(list := Kept(t, p.limit))],
                global := g.global.(list := list), mapped := g.mapped - AsSet(victims)))
  }

  /** notifyTouch of the global policy and the evictions it orders. */
  function TouchGlobal(g: Group, s: Seg): Option<Group> {
    var t := Touched(g.global.list, s);
    var victims := Victims(t, g.global.limit);
    match NotifyLocals(g.locals, victims)
    case None => None
    case Some(locals) =>
      Some(g.(locals := locals, global := g.global.(list := Kept(t, g.global.limit)),
              mapped := g.mapped - AsSet(victims)))
  }

  function Step(g: Group, op: Op): Option<Group> {
    match op
    case Touch(s) =>
      (match TouchLocal(g.(mapped := g.mapped + {s}), s)
       case None => None
       case Some(h) => TouchGlobal(h, s))
    case Unmap(s) => Some(g.(mapped := g.mapped - {s}))
    case Register(m, size, local) =>
      Some(g.(sizes := g.sizes[m := size],
              locals := if local.Some? then g.locals[m := Policy([], local.value)] else g.locals))
    case Free(m) =>
      Some(g.(sizes := g.sizes - {m}, locals := g.locals - {m},
              global := g.global.(list := RemoveAll(g.global.list, Restrict(g.global.list, m))),
              mapped := set x | x in g.mapped && x.mapping != m))
  }

  /** What the callers guarantee: touched segments belong to registered mappings, and a
      mapping is registered once, with limits of at least one of its segments. */
  predicate Allowed(g: Group, op: Op) {
    match op
    case Touch(s) => s.mapping in g.sizes && s.size == g.sizes[s.mapping]
    case Unmap(_) => true
    case Register(m, size, local) =>
      m !in g.sizes && size <= g.global.limit && (local.Some? ==> size <= local.value)
    case Free(_) => true
  }

  /** The local list of every mapping is its part of the global list. */
  ghost predicate Agree(locals: map<nat, Policy>, list: seq<Seg>) {
    forall m :: m in locals ==> locals[m].list == Restrict(list, m)
  }

  ghost predicate Inv(g: Group) {
    && NoDup(g.global.list)
    && Agree(g.locals, g.global.list)
    && (forall x :: x in g.mapped ==> x in g.global.list)
    && (forall x :: x in g.global.list ==> x.mapping in g.sizes && x.size == g.sizes[x.mapping])
    && g.locals.Keys <= g.sizes.Keys
    && (forall m :: m in g.sizes ==> g.sizes[m] <= g.global.limit)
    && (forall m :: m in g.locals ==> g.sizes[m] <= g.locals[m].limit && Total(g.locals[m].list) <= g.locals[m].limit)
    && Total(g.global.list) <= g.global.limit
  }

  // ---- victims are always where they are looked for ---------------------------------

  predicate AllIn(victims: seq<Seg>, list: seq<Seg>) {
    forall i :: 0 <= i < |victims| ==> victims[i] in list
  }

  /** The chain of notifications succeeds exactly when all victims, being distinct, are
      listed; the result is the list without them. */
  lemma {:induction false} NotifyGlobalIs(list: seq<Seg>, victims: seq<Seg>)
    requires NoDup(victims)
    ensures NotifyGlobal(list, victims).Some? <==> AllIn(victims, list)
    ensures AllIn(victims, list) ==> NotifyGlobal(list, victims) == Some(RemoveAll(list, victims))
    decreases |victims|
  {
    if victims != [] {
      NotifyGlobalIs(Remove(list, victims[0]), victims[1..]);
      if victims[0] in list {
        assert AllIn(victims, list) <==> AllIn(victims[1..], Remove(list, victims[0])) by {
          forall i | 0 <= i < |victims| - 1
            ensures victims[i + 1] in list <==> victims[1..][i] in Remove(list, victims[0])
          {
            assert victims[i + 1] != victims[0];
          }
        }
      }
    }
  }

  /** notifyEvict never fails on the local side, and keeps the agreement. */
  lemma {:induction false} NotifyLocalsIs(locals: map<nat, Policy>, list: seq<Seg>, victims: seq<Seg>)
    requires Agree(locals, list) && NoDup(victims) && AllIn(victims, list)
    ensures NotifyLocals(locals, victims).Some?
    ensures var r := NotifyLocals(locals, victims).value;
      && r.Keys == locals.Keys && Agree(r, RemoveAll(list, victims))
      && forall m :: m in r ==> r[m].limit == locals[m].limit
    decreases |victims|
  {
    if victims != [] {
      var v := victims[0];
      var next := if v.mapping in locals
                  then locals[v.mapping := locals[v.mapping].(list := Remove(locals[v.mapping].list, v))]
                  else locals;
      forall m | m in next ensures next[m].list == Restrict(Remove(list, v), m) {
        RestrictRemove(list, v, m);
      }
      forall i | 0 <= i < |victims[1..]| ensures victims[1..][i] in Remove(list, v) {
        assert victims[i + 1] in list && victims[i + 1] != v;
      }
      NotifyLocalsIs(next, Remove(list, v), victims[1..]);
      assert next.Keys == locals.Keys;
    }
  }

  // ---- one touch ------------------------------------------------------------------------

  /** The state between the two notifications of one touch. */
  ghost predicate Between(g: Group, s: Seg) {
    && NoDup(g.global.list)
    && (forall m :: m in g.locals ==>
          g.locals[m].list == (if m == s.mapping then Touched(Restrict(g.global.list, m), s)
                               else Restrict(g.global.list, m)))
    && (forall x :: x in g.mapped ==> x in g.global.list || x == s)
    && (forall m :: m in g.locals ==> Total(g.locals[m].list) <= g.locals[m].limit)
    && Total(g.global.list) <= g.global.limit
  }

  ghost predicate SameFrame(g: Group, h: Group) {
    && h.sizes == g.sizes && h.locals.Keys == g.locals.Keys && h.global.limit == g.global.limit
    && (forall m :: m in g.locals ==> h.locals[m].limit == g.locals[m].limit)
  }

  lemma {:induction false} TouchLocalSafe(g: Group, s: Seg)
    requires Inv(g) && Allowed(g, Touch(s))
    ensures var h := TouchLocal(g.(mapped := g.mapped + {s}), s);
      && h.Some? && Between(h.value, s) && SameFrame(g, h.value)
      && forall x :: x in h.value.global.list ==> x in g.global.list
  {
    var m := s.mapping;
    if m in g.locals {
      var p, list := g.locals[m], g.global.list;
      var victims := Victims(Touched(p.list, s), p.limit);
      LocalVictims(list, s, p.limit);
      LocalKept(list, s, p.limit);
      RemoveAllTotal(list, victims);
      forall k | k in g.locals && k != m ensures Restrict(RemoveAll(list, victims), k) == Restrict(list, k) {
        OtherRestrict(list, victims, k);
      }
    } else {
      Untouched(g, s);
    }
  }

  /** The local victims are other segments of the same mapping, all of them in the global
      list, so the global policy is notified without a failed assertion. */
  lemma {:induction false} LocalVictims(list: seq<Seg>, s: Seg, limit: nat)
    requires NoDup(list) && s.size <= limit
    ensures var t := Touched(Restrict(list, s.mapping), s);
      var victims := Victims(t, limit);
      && NotifyGlobal(list, victims) == Some(RemoveAll(list, victims))
      && (forall i :: 0 <= i < |victims| ==> victims[i].mapping == s.mapping)
      && s !in victims && Total(Kept(t, limit)) <= limit
  {
    var r := Restrict(list, s.mapping);
    var t := Touched(r, s);
    var victims := Victims(t, limit);
    RestrictNoDup(list, s.mapping);
    TouchedTotal(r, s);
    TouchedSurvives(r, s, limit);
    VictimsNoDup(t, limit);
    ShortestSuffix(t, limit);
    forall i | 0 <= i < |victims| ensures victims[i] in list && victims[i].mapping == s.mapping {
      assert victims[i] in victims && victims[i] in t;
    }
    NotifyGlobalIs(list, victims);
  }

  lemma {:induction false} Untouched(g: Group, s: Seg)
    requires Inv(g) && s.mapping !in g.locals
    ensures Between(g.(mapped := g.mapped + {s}), s)
  {
  }

  lemma {:induction false} RestrictNoDup(list: seq<Seg>, m: nat)
    requires NoDup(list)
    ensures NoDup(Restrict(list, m))
  {
    if list != [] {
      var n := |list| - 1;
      RestrictNoDup(list[..n], m);
      var r := Restrict(list[..n], m);
      forall i | 0 <= i < |r| ensures r[i] != list[n] { assert r[i] in r; }
    }
  }

  /** What the local policy keeps is the touched restriction of the reduced global list. */
  lemma {:induction false} LocalKept(list: seq<Seg>, s: Seg, limit: nat)
    requires NoDup(list) && s.size <= limit
    ensures var t := Touched(Restrict(list, s.mapping), s);
      Kept(t, limit) == Touched(Restrict(RemoveAll(list, Victims(t, limit)), s.mapping), s)
  {
    var r := Restrict(list, s.mapping);
    var t := Touched(r, s);
    var victims := Victims(t, limit);
    RestrictNoDup(list, s.mapping);
    TouchedTotal(r, s);
    TouchedSurvives(r, s, limit);
    KeptIsRemoval(t, limit);
    RemoveAllTail(s, Remove(r, s), victims);
    RemoveAllCommutes(r, s, victims);
    RestrictRemoveAll(list, victims, s.mapping);
  }

  lemma {:induction false} OtherRestrict(list: seq<Seg>, gone: seq<Seg>, k: nat)
    requires forall i :: 0 <= i < |gone| ==> gone[i].mapping != k
    ensures Restrict(RemoveAll(list, gone), k) == Restrict(list, k)
    decreases |gone|
  {
    if gone != [] {
      RestrictRemove(list, gone[0], k);
      OtherRestrict(Remove(list, gone[0]), gone[1..], k);
    }
  }

  lemma {:induction false} TouchGlobalSafe(g: Group, s: Seg)
    requires Between(g, s) && s.size <= g.global.limit
    ensures var h := TouchGlobal(g, s);
      && h.Some? && NoDup(h.value.global.list) && Agree(h.value.locals, h.value.global.list)
      && (forall x :: x in h.value.mapped ==> x in h.value.global.list)
      && SameFrame(g, h.value)
      && (forall m :: m in g.locals ==> Total(h.value.locals[m].list) <= g.locals[m].limit)
      && Total(h.value.global.list) <= g.global.limit
      && forall x :: x in h.value.global.list ==> x in g.global.list || x == s
  {
    var list, limit := g.global.list, g.global.limit;
    var t := Touched(list, s);
    var victims := Victims(t, limit);
    TouchedTotal(list, s);
    VictimsNoDup(t, limit);
    KeptNoDup(t, limit);
    ShortestSuffix(t, limit);
    KeptIsRemoval(t, limit);
    forall m | m in g.locals ensures g.locals[m].list == Restrict(t, m) { RestrictTouched(list, s, m); }
    forall i | 0 <= i < |victims| ensures victims[i] in t {}
    NotifyLocalsIs(g.locals, t, victims);
    forall m | m in g.locals
      ensures Total(NotifyLocals(g.locals, victims).value[m].list) <= Total(g.locals[m].list)
    {
      RestrictNoDup(t, m);
      RestrictRemoveAll(t, victims, m);
      RemoveAllTotal(Restrict(t, m), victims);
    }
  }

  // ---- runs -----------------------------------------------------------------------------

  lemma {:induction false} TouchSafe(g: Group, s: Seg)
    requires Inv(g) && Allowed(g, Touch(s))
    ensures Step(g, Touch(s)).Some? && Inv(Step(g, Touch(s)).value)
  {
    TouchLocalSafe(g, s);
    TouchGlobalSafe(TouchLocal(g.(mapped := g.mapped + {s}), s).value, s);
  }

  /** In lists that agree, the newest of the global list is the newest of its local one. */
  lemma {:induction false} NewestAgrees(locals: map<nat, Policy>, list: seq<Seg>, s: Seg)
    requires Agree(locals, list) && list != [] && list[0] == s && s.mapping in locals
    ensures locals[s.mapping].list != [] && locals[s.mapping].list[0] == s
  {
    assert list == [s] + list[1..];
    RestrictConcat([s], list[1..], s.mapping);
    RestrictOne(s, s.mapping);
  }

  lemma {:induction false} LocalStaysMapped(g: Group, s: Seg)
    requires Inv(g) && Allowed(g, Touch(s))
    ensures var h := TouchLocal(g.(mapped := g.mapped + {s}), s);
      h.Some? && s in h.value.mapped && NoDup(h.value.global.list) && h.value.global.limit == g.global.limit
  {
    TouchLocalSafe(g, s);
    if s.mapping in g.locals { LocalVictims(g.global.list, s, g.locals[s.mapping].limit); }
  }

  /** Neither policy evicts the segment just touched, so the access that faulted can
      complete; it is the newest of both lists. */
  lemma {:induction false} TouchedStaysMapped(g: Group, s: Seg)
    requires Inv(g) && Allowed(g, Touch(s))
    ensures Step(g, Touch(s)).Some?
    ensures var r := Step(g, Touch(s)).value;
      && s in r.mapped && r.global.list != [] && r.global.list[0] == s
      && (s.mapping in r.locals ==> r.locals[s.mapping].list != [] && r.locals[s.mapping].list[0] == s)
  {
    TouchSafe(g, s);
    LocalStaysMapped(g, s);
    var h := TouchLocal(g.(mapped := g.mapped + {s}), s).value;
    TouchedSurvives(h.global.list, s, h.global.limit);
    var r := Step(g, Touch(s)).value;
    if s.mapping in r.locals { NewestAgrees(r.locals, r.global.list, s); }
  }

  lemma {:induction false} FreeSafe(g: Group, m: nat)
    requires Inv(g)
    ensures Step(g, Free(m)).Some? && Inv(Step(g, Free(m)).value)
  {
    var list, gone := g.global.list, Restrict(g.global.list, m);
    var h := Step(g, Free(m)).value;
    RemoveAllTotal(list, gone);
    forall k | k in h.locals ensures h.locals[k].list == Restrict(h.global.list, k) {
      forall i | 0 <= i < |gone| ensures gone[i].mapping != k { assert gone[i] in gone; }
      OtherRestrict(list, gone, k);
    }
    forall x | x in h.global.list ensures x.mapping in h.sizes {
      assert x !in gone;
    }
  }

  lemma {:induction false} RegisterSafe(g: Group, m: nat, size: nat, local: Option<nat>)
    requires Inv(g) && Allowed(g, Register(m, size, local))
    ensures Step(g, Register(m, size, local)).Some? && Inv(Step(g, Register(m, size, local)).value)
  {
    var h := Step(g, Register(m, size, local)).value;
    NoneOf(g.global.list, m);
    assert h.locals.Keys <= h.sizes.Keys;
  }

  lemma {:induction false} NoneOf(list: seq<Seg>, m: nat)
    requires forall x :: x in list ==> x.mapping != m
    ensures Restrict(list, m) == []
  {
    if Restrict(list, m) != [] { assert Restrict(list, m)[0] in Restrict(list, m); }
  }

  /** No step of the group can fail an assertion, and every step keeps the agreement. */
  lemma {:induction false} StepSafe(g: Group, op: Op)
    requires Inv(g) && Allowed(g, op)
    ensures Step(g, op).Some? && Inv(Step(g, op).value)
  {
    match op
    case Touch(s) => TouchSafe(g, s);
    case Unmap(_) =>
    case Register(m, size, local) => RegisterSafe(g, m, size, local);
    case Free(m) => FreeSafe(g, m);
  }

  // ---- what each step does -----------------------------------------------------------------

  /** Freeing a mapping removes exactly its segments from everywhere, and its local policy. */
  lemma {:induction false} FreeExactly(g: Group, m: nat)
    ensures var r := Step(g, Free(m));
      && r.Some? && m !in r.value.sizes && m !in r.value.locals && r.value.global.limit == g.global.limit
      && (forall x {:trigger x in r.value.global.list} ::
            x in r.value.global.list <==> x in g.global.list && x.mapping != m)
      && (forall x {:trigger x in r.value.mapped} :: x in r.value.mapped <==> x in g.mapped && x.mapping != m)
      && (forall k :: k in g.locals && k != m ==> k in r.value.locals && r.value.locals[k] == g.locals[k])
      && (forall k :: k in g.sizes && k != m ==> k in r.value.sizes && r.value.sizes[k] == g.sizes[k])
  {
  }

  /** Giving back a segment makes it not resident, and the policies are not told. */
  lemma {:induction false} UnmapExactly(g: Group, s: Seg)
    ensures var r := Step(g, Unmap(s));
      && r.Some? && r.value.locals == g.locals && r.value.global == g.global
      && forall x {:trigger x in r.value.mapped} :: x in r.value.mapped <==> x in g.mapped && x != s
  {
  }

  /** Registering a mapping adds its size, and an empty local policy where one is given. */
  lemma {:induction false} RegisterExactly(g: Group, m: nat, size: nat, local: Option<nat>)
    requires m !in g.locals
    ensures var r := Step(g, Register(m, size, local));
      && r.Some? && m in r.value.sizes && r.value.sizes[m] == size
      && (if local.Some? then m in r.value.locals && r.value.locals[m] == Policy([], local.value)
          else m !in r.value.locals)
      && r.value.global == g.global && r.value.mapped == g.mapped
      && (forall k :: k in g.locals && k != m ==> k in r.value.locals && r.value.locals[k] == g.locals[k])
  {
  }

  /** Bytes a list would hold with s on it. */
  function With(list: seq<Seg>, s: Seg): nat { Total(list) + if s in list then 0 else s.size }

  lemma {:induction false} RoomEvictsNothing(list: seq<Seg>, s: Seg, limit: nat)
    requires NoDup(list) && With(list, s) <= limit
    ensures Kept(Touched(list, s), limit) == Touched(list, s) && Victims(Touched(list, s), limit) == []
  {
    var t := Touched(list, s);
    TouchedTotal(list, s);
    assert t[..|t|] == t;
    SurvivorsMaximal(t, limit, |t|);
  }

  /** While there is room in both policies a touch evicts nothing. */
  lemma {:induction false} TouchWithRoom(g: Group, s: Seg)
    requires Inv(g) && With(g.global.list, s) <= g.global.limit
    requires s.mapping in g.locals ==> With(g.locals[s.mapping].list, s) <= g.locals[s.mapping].limit
    ensures var r := Step(g, Touch(s));
      && r.Some? && r.value.mapped == g.mapped + {s} && r.value.global.list == Touched(g.global.list, s)
      && (s.mapping in g.locals ==>
            s.mapping in r.value.locals
            && r.value.locals[s.mapping].list == Touched(g.locals[s.mapping].list, s))
  {
    RoomEvictsNothing(g.global.list, s, g.global.limit);
    if s.mapping in g.locals {
      var p := g.locals[s.mapping];
      RestrictNoDup(g.global.list, s.mapping);
      RoomEvictsNothing(p.list, s, p.limit);
    }
  }

  predicate CanRun(g: Group, ops: seq<Op>)
    decreases |ops|
  {
    ops == [] || (Allowed(g, ops[0]) && (Step(g, ops[0]).Some? ==> CanRun(Step(g, ops[0]).value, ops[1..])))
  }

  function Run(g: Group, ops: seq<Op>): Option<Group>
    decreases |ops|
  {
    if ops == [] then Some(g)
    else if Step(g, ops[0]).None? then None
    else Run(Step(g, ops[0]).value, ops[1..])
  }

  lemma {:induction false} RunSafe(g: Group, ops: seq<Op>)
    requires Inv(g) && CanRun(g, ops)
    ensures Run(g, ops).Some? && Inv(Run(g, ops).value)
    decreases |ops|
  {
    if ops != [] {
      StepSafe(g, ops[0]);
      RunSafe(Step(g, ops[0]).value, ops[1..]);
    }
  }

  /** The listed segments of a policy that are resident. */
  function Resident(list: seq<Seg>, mapped: set<Seg>): seq<Seg> {
    if list == [] then []
    else
      var n := |list| - 1;
      if list[n] in mapped then Resident(list[..n], mapped) + [list[n]] else Resident(list[..n], mapped)
  }

  lemma {:induction false} ResidentTotal(list: seq<Seg>, mapped: set<Seg>)
    ensures Total(Resident(list, mapped)) <= Total(list)
    ensures forall x :: x in Resident(list, mapped) <==> x in list && x in mapped
  {
    if list != [] {
      var n := |list| - 1;
      ResidentTotal(list[..n], mapped);
      var r := Resident(list[..n], mapped);
      assert (r + [list[n]])[..|r|] == r;
    }
  }

  /** From an empty group, after any run: every resident segment is in the list of each
      policy of its mapping, and resident bytes <= counted bytes <= limit for each of them. */
  lemma {:induction false} ResidencyBounded(limit: nat, ops: seq<Op>)
    requires CanRun(Group(map[], map[], Policy([], limit), {}), ops)
    ensures var r := Run(Group(map[], map[], Policy([], limit), {}), ops);
      && r.Some?
      && (forall x :: x in r.value.mapped ==>
            x in r.value.global.list && (x.mapping in r.value.locals ==> x in r.value.locals[x.mapping].list))
      && Total(Resident(r.value.global.list, r.value.mapped)) <= Total(r.value.global.list) <= limit
      && forall m :: m in r.value.locals ==>
           var p := r.value.locals[m];
           Total(Resident(p.list, r.value.mapped)) <= Total(p.list) <= p.limit
  {
    var g := Group(map[], map[], Policy([], limit), {});
    RunSafe(g, ops);
    LimitStays(g, ops);
    var r := Run(g, ops).value;
    ResidentTotal(r.global.list, r.mapped);
    forall m | m in r.locals { ResidentTotal(r.locals[m].list, r.mapped); }
  }

  lemma {:induction false} LimitStays(g: Group, ops: seq<Op>)
    ensures Run(g, ops).Some? ==> Run(g, ops).value.global.limit == g.global.limit
    decreases |ops|
  {
    if ops != [] && Step(g, ops[0]).Some? { LimitStays(Step(g, ops[0]).value, ops[1..]); }
  }

  /** When a limit can be smaller than a segment (a quota lowered it), the first touch of
      that segment makes the local policy evict it before the global one has heard of it:
      the global assertion fails exactly in that case. */
  lemma {:induction false} TouchFailsExactly(g: Group, s: Seg)
    requires NoDup(g.global.list) && Agree(g.locals, g.global.list) && s.mapping in g.locals
    ensures TouchLocal(g, s).None? <==> s !in g.global.list && s.size > g.locals[s.mapping].limit
  {
    var list, r := g.global.list, Restrict(g.global.list, s.mapping);
    var limit := g.locals[s.mapping].limit;
    var t := Touched(r, s);
    var victims := Victims(t, limit);
    RestrictNoDup(list, s.mapping);
    TouchedTotal(r, s);
    TouchedSurvives(r, s, limit);
    VictimsNoDup(t, limit);
    NotifyGlobalIs(list, victims);
    forall i | 0 <= i < |victims| ensures victims[i] in list || victims[i] == s {
      assert victims[i] in victims && victims[i] in t;
    }
    if s in victims {
      var i :| 0 <= i < |victims| && victims[i] == s;
    }
  }
}
