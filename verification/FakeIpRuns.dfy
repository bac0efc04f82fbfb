/** Guarantees of the pool over whole runs of lookups. */
module FakeIpRuns {
  import opened Sequences
  import opened Text
  import opened Wrappers
  import opened FakeIpSpec

  predicate InRing(ring: Ring, a: Addr) {
    a.is4 == ring.first.is4 && ring.first.n <= a.n < ring.last.n
  }

  ghost predicate Inv(ring: Ring, st: State) {
    && ring.first.is4 == ring.last.is4 == st.offset.is4
    && ring.first.n < ring.last.n
    && ring.first.n - 1 <= st.offset.n < ring.last.n
    && OneToOne(st.pairs)
    && (forall i :: 0 <= i < |st.pairs| ==> InRing(ring, st.pairs[i].1) && IsLower(st.pairs[i].0))
    && (ring.size > 0 ==> |st.pairs| <= ring.size)
  }

  // ---- one operation ----

  lemma MovedKeepsInv(ring: Ring, st: State, i: nat)
    requires Inv(ring, st) && i < |st.pairs|
    ensures Inv(ring, st.(pairs := ToBack(st.pairs, i)))
  {
    hide OneToOne, PlaceOf;
    MovedOneToOne(st.pairs, i);
    var t := ToBack(st.pairs, i);
    assert forall j :: 0 <= j < |t| ==> t[j] in t;
  }

  lemma FreshKeepsInv(ring: Ring, st: State, host: string)
    requires Inv(ring, st) && PlaceOf(st.pairs, ToLower(host)) < 0
    ensures Inv(ring, Lookup(ring, st, host).0)
  {
    hide OneToOne, PlaceOf, ToLower;
    var h, a := ToLower(host), Advance(ring, st.offset);
    LowerIsLower(host);
    FreedIsFree(st.pairs, a, h);
    var kept := Freed(st.pairs, a);
    AddedOneToOne(ring.size, kept, h, a);
    assert forall j :: 0 <= j < |kept| ==> kept[j] in kept;
  }

  lemma LookupKeepsInv(ring: Ring, st: State, host: string)
    requires Inv(ring, st)
    ensures Inv(ring, Lookup(ring, st, host).0)
    ensures InRing(ring, Lookup(ring, st, host).1)
  {
    var i := PlaceOf(st.pairs, ToLower(host));
    if i >= 0 {
      MovedKeepsInv(ring, st, i);
    } else {
      FreshKeepsInv(ring, st, host);
    }
  }

  lemma LookBackKeepsInv(ring: Ring, st: State, a: Addr)
    requires Inv(ring, st)
    ensures Inv(ring, LookBack(st, a).0)
  {
    var i := PlaceOf(Swap(st.pairs), a);
    if i >= 0 { MovedKeepsInv(ring, st, i); }
  }

  lemma LookupStoresLast(ring: Ring, st: State, host: string)
    ensures var (t, a) := Lookup(ring, st, host);
            |t.pairs| > 0 && t.pairs[|t.pairs| - 1] == (ToLower(host), a)
  {
    hide PlaceOf, ToLower, Freed;
  }

  /** A stored pair answers in both directions. */
  lemma PairAnswers(ring: Ring, st: State, h: string, a: Addr, host: string)
    requires Inv(ring, st) && (h, a) in st.pairs && ToLower(host) == h
    ensures Lookup(ring, st, host).1 == a && LookBack(st, a).1 == Some(h) && Exist(st, a)
  {
    hide ToLower, ToBack, Freed, Trim, Advance, PlaceOf, InRing, IsLower;
    var i :| 0 <= i < |st.pairs| && st.pairs[i] == (h, a);
    assert Swap(st.pairs)[i].0 == a;
    var j := PlaceOf(Swap(st.pairs), a);
    assert Swap(st.pairs)[j] == (st.pairs[j].1, st.pairs[j].0);
  }

  /** Looking an address back gives the lower-case host it was handed out for. */
  lemma LookBackOfLookup(ring: Ring, st: State, host: string)
    requires Inv(ring, st)
    ensures var (t, a) := Lookup(ring, st, host);
            LookBack(t, a).1 == Some(ToLower(host)) && Lookup(ring, t, host).1 == a
    ensures SameButCase(ToLower(host), host) && NoCapitals(ToLower(host))
  {
    hide CasePair, LowerChar;
    LowerExactly(host, host);
    SameButCaseTurns(host, ToLower(host));
    var (t, a) := Lookup(ring, st, host);
    LookupKeepsInv(ring, st, host);
    LookupStoresLast(ring, st, host);
    PairAnswers(ring, t, ToLower(host), a, host);
  }

  /** Two names share an address only when they differ in case alone. */
  lemma NoSharedAddress(ring: Ring, st: State, host1: string, host2: string)
    requires Inv(ring, st)
    requires PlaceOf(st.pairs, ToLower(host1)) >= 0 && PlaceOf(st.pairs, ToLower(host2)) >= 0
    ensures Lookup(ring, st, host1).1 == Lookup(ring, st, host2).1 <==> SameButCase(host1, host2)
  {
    hide SameButCase, LowerChar;
    LowerExactly(host1, host2);
  }

  // ---- runs ----

  datatype Op = Look(host: string) | Back(ip: Addr) | Ask(ip: Addr)

  ghost function Step(ring: Ring, st: State, op: Op): State {
    match op
    case Look(host) => Lookup(ring, st, host).0
    case Back(ip) => LookBack(st, ip).0
    case Ask(_) => st
  }

  lemma RunNothing(ring: Ring, st: State)
    ensures Run(ring, st, []) == st
  {
  }

  ghost function Run(ring: Ring, st: State, ops: seq<Op>): State
    decreases |ops|
  {
    if |ops| == 0 then st else Run(ring, Step(ring, st, ops[0]), ops[1..])
  }

  lemma {:induction false} RunSnoc(ring: Ring, st: State, ops: seq<Op>, op: Op)
    ensures Run(ring, st, ops + [op]) == Step(ring, Run(ring, st, ops), op)
    decreases |ops|
  {
    hide Step;
    if ops == [] {
      assert ([] + [op])[1..] == [];
    } else {
      assert (ops + [op])[1..] == ops[1..] + [op];
      RunSnoc(ring, Step(ring, st, ops[0]), ops[1..], op);
    }
  }

  lemma StepKeepsInv(ring: Ring, st: State, op: Op)
    requires Inv(ring, st)
    ensures Inv(ring, Step(ring, st, op))
  {
    match op
    case Look(host) => LookupKeepsInv(ring, st, host);
    case Back(ip) => LookBackKeepsInv(ring, st, ip);
    case Ask(_) =>
  }

  lemma {:induction false} RunKeepsInv(ring: Ring, st: State, ops: seq<Op>)
    requires Inv(ring, st)
    ensures Inv(ring, Run(ring, st, ops))
    decreases |ops|
  {
    hide Inv, Step;
    if |ops| > 0 {
      StepKeepsInv(ring, st, ops[0]);
      RunKeepsInv(ring, Step(ring, st, ops[0]), ops[1..]);
    }
  }

  ghost predicate Allocates(st: State, op: Op) {
    op.Look? && PlaceOf(st.pairs, ToLower(op.host)) < 0
  }

  /** The addresses handed out anew, in order. */
  ghost function Grants(ring: Ring, st: State, ops: seq<Op>): seq<Addr>
    decreases |ops|
  {
    if |ops| == 0 then []
    else
      var rest := Grants(ring, Step(ring, st, ops[0]), ops[1..]);
      if Allocates(st, ops[0]) then [Advance(ring, st.offset)] + rest else rest
  }

  function Count(ring: Ring): int {
    ring.last.n - ring.first.n
  }

  /** Position `k` of the ring, counted past its end once. */
  function At(ring: Ring, k: nat): Addr {
    Addr(ring.first.is4, ring.first.n + if k < Count(ring) then k else k - Count(ring))
  }

  /** The ring position `n` steps on. */
  function AdvanceBy(ring: Ring, a: Addr, n: nat): Addr {
    if n == 0 then a else Advance(ring, AdvanceBy(ring, a, n - 1))
  }

  lemma StepOffset(ring: Ring, st: State, op: Op)
    requires Inv(ring, st)
    ensures Step(ring, st, op).offset == if Allocates(st, op) then Advance(ring, st.offset) else st.offset
    ensures Advance(ring, st.offset) == At(ring, st.offset.n + 1 - ring.first.n)
  {
    hide OneToOne, PlaceOf;
  }

  lemma {:induction false} AdvanceFirst(ring: Ring, a: Addr, n: nat)
    ensures AdvanceBy(ring, a, n + 1) == AdvanceBy(ring, Advance(ring, a), n)
  {
    if n > 0 { AdvanceFirst(ring, a, n - 1); }
  }

  /** The addresses are handed out one after the other around the ring, in every run and for any number
      of rounds. */
  lemma {:induction false} GrantsGoRound(ring: Ring, st: State, ops: seq<Op>, i: nat)
    requires Inv(ring, st) && i < |Grants(ring, st, ops)|
    ensures Grants(ring, st, ops)[i] == AdvanceBy(ring, st.offset, i + 1)
    decreases |ops|
  {
    hide Step, OneToOne, Advance;
    var next := Step(ring, st, ops[0]);
    StepKeepsInv(ring, st, ops[0]);
    StepOffset(ring, st, ops[0]);
    AdvanceFirst(ring, st.offset, i);
    if Allocates(st, ops[0]) {
      if i > 0 {
        GrantsGoRound(ring, next, ops[1..], i - 1);
      }
    } else {
      GrantsGoRound(ring, next, ops[1..], i);
    }
  }

  /** Up to one round the position is a sum. */
  lemma {:induction false} AdvanceIsAt(ring: Ring, a: Addr, n: nat)
    requires ring.first.n < ring.last.n && ring.first.is4 == ring.last.is4 && InRing(ring, a)
    requires n <= Count(ring)
    ensures InRing(ring, AdvanceBy(ring, a, n))
    ensures AdvanceBy(ring, a, n) == At(ring, a.n - ring.first.n + n)
  {
    if n > 0 { AdvanceIsAt(ring, a, n - 1); }
  }

  lemma {:induction false} AdvanceMore(ring: Ring, a: Addr, m: nat, n: nat)
    ensures AdvanceBy(ring, a, m + n) == AdvanceBy(ring, AdvanceBy(ring, a, m), n)
  {
    if n > 0 { AdvanceMore(ring, a, m, n - 1); }
  }

  /** What is left of `n` steps after whole rounds of `count`. */
  function Remaining(n: nat, count: nat): nat
    requires count > 0
  {
    if n < count then n else Remaining(n - count, count)
  }

  /** The ring comes back to an address after whole rounds and at no other time. */
  lemma {:induction false} RoundsReturn(ring: Ring, a: Addr, n: nat)
    requires ring.first.n < ring.last.n && ring.first.is4 == ring.last.is4 && InRing(ring, a)
    ensures AdvanceBy(ring, a, n) == a <==> Remaining(n, Count(ring)) == 0
    decreases n
  {
    if n < Count(ring) {
      AdvanceIsAt(ring, a, n);
    } else {
      AdvanceIsAt(ring, a, Count(ring));
      AdvanceMore(ring, a, Count(ring), n - Count(ring));
      RoundsReturn(ring, a, n - Count(ring));
    }
  }

  /** An address just handed out is handed out again by exactly every N-th later allocation. */
  lemma AddressComesBack(ring: Ring, st: State, ops: seq<Op>, i: nat)
    requires Inv(ring, st) && InRing(ring, st.offset) && i < |Grants(ring, st, ops)|
    ensures Grants(ring, st, ops)[i] == st.offset <==> Remaining(i + 1, Count(ring)) == 0
  {
    GrantsGoRound(ring, st, ops, i);
    RoundsReturn(ring, st.offset, i + 1);
  }

  // ---- how long a pair lives ----

  /** The pair is stored, and every pair used after it belongs to a host in `used`. */
  ghost predicate Guarded(pairs: Pairs<string, Addr>, h: string, a: Addr, used: set<string>) {
    exists i :: 0 <= i < |pairs| && pairs[i] == (h, a) && BehindIn(pairs, i, used)
  }

  ghost predicate BehindIn(pairs: Pairs<string, Addr>, i: nat, used: set<string>) {
    forall j :: i < j < |pairs| ==> pairs[j].0 in used
  }

  /** The host other than `h` whose pair an operation moves or stores. */
  ghost function Others(st: State, op: Op, h: string): set<string> {
    match op
    case Look(host) => {ToLower(host)} - {h}
    case Back(ip) =>
      var i := PlaceOf(Swap(st.pairs), ip);
      if i >= 0 then {st.pairs[i].0} - {h} else {}
    case Ask(_) => {}
  }

  ghost function OthersIn(ring: Ring, st: State, ops: seq<Op>, h: string): set<string>
    decreases |ops|
  {
    if |ops| == 0 then {} else Others(st, ops[0], h) + OthersIn(ring, Step(ring, st, ops[0]), ops[1..], h)
  }

  /** Moving a pair to the back: behind the guarded pair only the moved host is new. */
  lemma MoveGuards(pairs: Pairs<string, Addr>, k: nat, h: string, a: Addr, used: set<string>)
    requires OneToOne(pairs) && k < |pairs| && Guarded(pairs, h, a, used)
    ensures Guarded(ToBack(pairs, k), h, a, used + ({pairs[k].0} - {h}))
  {
    hide ToBack, BehindIn;
    var i :| 0 <= i < |pairs| && pairs[i] == (h, a) && BehindIn(pairs, i, used);
    assert k != i ==> pairs[k].0 != h;
    MoveBehind(pairs, k, i, h, used);
    ToBackAt(pairs, k);
    assert ToBack(pairs, k)[if i < k then i else if i == k then |pairs| - 1 else i - 1] == (h, a);
  }

  lemma MoveBehind(pairs: Pairs<string, Addr>, k: nat, i: nat, h: string, used: set<string>)
    requires k < |pairs| && i < |pairs| && (k != i ==> pairs[k].0 != h) && BehindIn(pairs, i, used)
    ensures BehindIn(ToBack(pairs, k), if i < k then i else if i == k then |pairs| - 1 else i - 1,
                     used + ({pairs[k].0} - {h}))
  {
    var t := ToBack(pairs, k);
    hide ToBack;
    ToBackAt(pairs, k);
    var at := if i < k then i else if i == k then |pairs| - 1 else i - 1;
    forall j | at < j < |t| ensures t[j].0 in used + ({pairs[k].0} - {h}) {
      if j < |t| - 1 { assert t[j] == pairs[if j < k then j else j + 1]; }
    }
  }

  lemma ToBackAt<A>(s: seq<A>, k: nat)
    requires k < |s|
    ensures |ToBack(s, k)| == |s| && ToBack(s, k)[|s| - 1] == s[k]
    ensures forall j :: 0 <= j < |s| - 1 ==> ToBack(s, k)[j] == s[if j < k then j else j + 1]
  {
  }

  /** Freeing another address. */
  lemma FreeGuards(pairs: Pairs<string, Addr>, ip: Addr, h: string, a: Addr, used: set<string>)
    requires OneToOne(pairs) && ip != a && Guarded(pairs, h, a, used)
    ensures Guarded(Freed(pairs, ip), h, a, used)
  {
    var i :| 0 <= i < |pairs| && pairs[i] == (h, a) && BehindIn(pairs, i, used);
    var k := PlaceOf(Swap(pairs), ip);
    assert k >= 0 ==> Swap(pairs)[k].0 == pairs[k].1;
    CutGuards(pairs, k, i, h, a, used);
  }

  lemma CutGuards(pairs: Pairs<string, Addr>, k: int, i: nat, h: string, a: Addr, used: set<string>)
    requires -1 <= k < |pairs| && i < |pairs| && k != i && pairs[i] == (h, a) && BehindIn(pairs, i, used)
    ensures Guarded(LruSpec.Cut(pairs, k), h, a, used)
  {
    var t := LruSpec.Cut(pairs, k);
    assert forall j :: 0 <= j < |t| ==> t[j] == pairs[if 0 <= k <= j then j + 1 else j];
    var i' := if 0 <= k < i then i - 1 else i;
    assert t[i'] == (h, a) && BehindIn(t, i', used);
  }

  lemma {:induction false} DistinctInSet(s: seq<string>, used: set<string>)
    requires forall i, j :: 0 <= i < j < |s| ==> s[i] != s[j]
    requires forall i :: 0 <= i < |s| ==> s[i] in used
    ensures |s| <= |used|
  {
    if |s| > 0 {
      var n := |s| - 1;
      DistinctInSet(s[..n], used - {s[n]});
    }
  }

  /** A new pair at the back: the size limit spares the guarded pair while fewer than `size`
      other hosts have been used. */
  lemma StoreGuards(size: int, pairs: Pairs<string, Addr>, h: string, a: Addr, used: set<string>, h2: string, ip: Addr)
    requires OneToOne(pairs + [(h2, ip)]) && Guarded(pairs, h, a, used)
    requires size > 0 ==> |used + {h2}| < size
    ensures Guarded(Trim(size, pairs + [(h2, ip)]), h, a, used + {h2})
  {
    var i :| 0 <= i < |pairs| && pairs[i] == (h, a) && BehindIn(pairs, i, used);
    var t := pairs + [(h2, ip)];
    assert t[i] == (h, a) && BehindIn(t, i, used + {h2});
    if size > 0 && |t| > size {
      if i == 0 {
        var hosts := seq(|t| - 1, j requires 0 <= j < |t| - 1 => t[j + 1].0);
        DistinctInSet(hosts, used + {h2});
        assert false;
      }
      assert t[1..][i - 1] == (h, a) && BehindIn(t[1..], i - 1, used + {h2});
    }
  }

  lemma GuardedIsStored(pairs: Pairs<string, Addr>, h: string, a: Addr, used: set<string>)
    requires Guarded(pairs, h, a, used)
    ensures (h, a) in pairs && PlaceOf(pairs, h) >= 0
  {
  }

  lemma LookGuards(ring: Ring, st: State, host: string, h: string, a: Addr, used: set<string>)
    requires Inv(ring, st) && Guarded(st.pairs, h, a, used)
    requires Allocates(st, Look(host)) ==> Advance(ring, st.offset) != a
    requires ring.size > 0 ==> |used + ({ToLower(host)} - {h})| < ring.size
    ensures Guarded(Lookup(ring, st, host).0.pairs, h, a, used + ({ToLower(host)} - {h}))
  {
    hide Guarded, OneToOne, ToLower;
    var k := PlaceOf(st.pairs, ToLower(host));
    if k >= 0 {
      MoveGuards(st.pairs, k, h, a, used);
    } else {
      var ip := Advance(ring, st.offset);
      GuardedIsStored(st.pairs, h, a, used);
      assert {ToLower(host)} - {h} == {ToLower(host)};
      FreedIsFree(st.pairs, ip, ToLower(host));
      FreeGuards(st.pairs, ip, h, a, used);
      AddedOneToOne(0, Freed(st.pairs, ip), ToLower(host), ip);
      StoreGuards(ring.size, Freed(st.pairs, ip), h, a, used, ToLower(host), ip);
    }
  }

  lemma InvOneToOne(ring: Ring, st: State)
    requires Inv(ring, st)
    ensures OneToOne(st.pairs)
  {
  }

  lemma BackGuards(ring: Ring, st: State, ip: Addr, h: string, a: Addr, used: set<string>)
    requires Inv(ring, st) && Guarded(st.pairs, h, a, used)
    ensures Guarded(LookBack(st, ip).0.pairs, h, a, used + Others(st, Back(ip), h))
  {
    hide Guarded, Inv, OneToOne, PlaceOf, Swap, ToBack, InRing, IsLower;
    InvOneToOne(ring, st);
    var k := PlaceOf(Swap(st.pairs), ip);
    if k >= 0 {
      MoveGuards(st.pairs, k, h, a, used);
    } else {
      assert used + {} == used;
    }
  }

  lemma StepGuards(ring: Ring, st: State, op: Op, h: string, a: Addr, used: set<string>)
    requires Inv(ring, st) && Guarded(st.pairs, h, a, used)
    requires Allocates(st, op) ==> Advance(ring, st.offset) != a
    requires ring.size > 0 ==> |used + Others(st, op, h)| < ring.size
    ensures Guarded(Step(ring, st, op).pairs, h, a, used + Others(st, op, h))
  {
    hide Guarded, Inv, Lookup, LookBack;
    match op
    case Look(host) => LookGuards(ring, st, host, h, a, used);
    case Back(ip) => BackGuards(ring, st, ip, h, a, used);
    case Ask(_) => assert used + {} == used;
  }

  /** Allocations since the address was handed out, counted around the ring. */
  function Age(ring: Ring, st: State, a: Addr): int {
    if a.n <= st.offset.n then st.offset.n - a.n else st.offset.n + Count(ring) - a.n
  }

  lemma AgeGrows(ring: Ring, st: State, op: Op, a: Addr)
    requires Inv(ring, st) && InRing(ring, a) && Age(ring, st, a) + Allocations(st, op) < Count(ring)
    ensures Age(ring, Step(ring, st, op), a) <= Age(ring, st, a) + Allocations(st, op)
    ensures Allocates(st, op) ==> Advance(ring, st.offset) != a
  {
    hide Step, OneToOne;
    StepOffset(ring, st, op);
  }

  ghost function Allocations(st: State, op: Op): nat {
    if Allocates(st, op) then 1 else 0
  }

  /** A pair is still stored after a run with fewer allocations than are left of its address's
      round and fewer other hosts, counting those used since its last use, than the cache size. */
  lemma {:induction false} PairSurvives(ring: Ring, st: State, ops: seq<Op>, h: string, a: Addr, used: set<string>)
    requires Inv(ring, st) && InRing(ring, a) && Guarded(st.pairs, h, a, used)
    requires Age(ring, st, a) + |Grants(ring, st, ops)| < Count(ring)
    requires ring.size > 0 ==> |used + OthersIn(ring, st, ops, h)| < ring.size
    ensures (h, a) in Run(ring, st, ops).pairs
    decreases |ops|
  {
    if |ops| == 0 {
      GuardedIsStored(st.pairs, h, a, used);
    } else {
      hide Inv, Guarded, Step, Others, Allocates, Advance;
      var next := Step(ring, st, ops[0]);
      var used' := used + Others(st, ops[0], h);
      var rest := OthersIn(ring, next, ops[1..], h);
      assert used + OthersIn(ring, st, ops, h) == used' + rest;
      SubsetSize(used', used' + rest);
      StepKeepsInv(ring, st, ops[0]);
      GrantsStep(ring, st, ops);
      AgeGrows(ring, st, ops[0], a);
      StepGuards(ring, st, ops[0], h, a, used);
      PairSurvives(ring, next, ops[1..], h, a, used');
    }
  }

  lemma GrantsStep(ring: Ring, st: State, ops: seq<Op>)
    requires |ops| > 0
    ensures |Grants(ring, st, ops)| == Allocations(st, ops[0]) + |Grants(ring, Step(ring, st, ops[0]), ops[1..])|
  {
  }

  /** From the moment a host has been looked up: while fewer allocations follow than are left of
      the round and fewer than `size` other hosts are used, it keeps its address. */
  lemma LookupIsStable(ring: Ring, st: State, host: string, ops: seq<Op>)
    requires Inv(ring, st)
    requires var (t, a) := Lookup(ring, st, host);
             && Age(ring, t, a) + |Grants(ring, t, ops)| < Count(ring)
             && (ring.size > 0 ==> |OthersIn(ring, t, ops, ToLower(host))| < ring.size)
    ensures var (t, a) := Lookup(ring, st, host);
            var u := Run(ring, t, ops);
            Lookup(ring, u, host).1 == a && LookBack(u, a).1 == Some(ToLower(host))
  {
    var (t, a) := Lookup(ring, st, host);
    var h := ToLower(host);
    LookupKeepsInv(ring, st, host);
    LookupStoresLast(ring, st, host);
    assert t.pairs[|t.pairs| - 1] == (h, a) && BehindIn(t.pairs, |t.pairs| - 1, {});
    assert {} + OthersIn(ring, t, ops, h) == OthersIn(ring, t, ops, h);
    PairSurvives(ring, t, ops, h, a, {});
    RunKeepsInv(ring, t, ops);
    PairAnswers(ring, Run(ring, t, ops), h, a, host);
  }
}
