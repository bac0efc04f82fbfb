/** The breadth-first construction of the succinct form from sorted keys. */
module DomainSetBuild {
  import opened Sequences
  import opened Wrappers
  import opened Bitmap
  import opened SortedKeys
  import opened DomainSet

  // ---- termination: bytes still to be consumed by the queue ----

  function Weight(keys: seq<string>, s: nat, e: nat, col: nat): int
    requires e <= |keys|
    decreases e - s
  {
    if s >= e then 0 else |keys[s]| + 1 - col + Weight(keys, s + 1, e, col)
  }

  lemma {:induction false} WeightSplit(keys: seq<string>, s: nat, m: nat, e: nat, col: nat)
    requires s <= m <= e <= |keys|
    ensures Weight(keys, s, e, col) == Weight(keys, s, m, col) + Weight(keys, m, e, col)
    decreases m - s
  {
    if s < m { WeightSplit(keys, s + 1, m, e, col); }
  }

  lemma {:induction false} WeightOfChildren(keys: seq<string>, s: nat, e: nat, col: nat)
    requires s <= e <= |keys| && forall j :: s <= j < e ==> |keys[j]| >= col
    ensures Weight(keys, s, e, col) >= e - s
    ensures Weight(keys, s, e, col + 1) == Weight(keys, s, e, col) - (e - s)
    decreases e - s
  {
    if s < e { WeightOfChildren(keys, s + 1, e, col); }
  }

  ghost predicate InRange(keys: seq<string>, queue: seq<QElt>) {
    forall n :: 0 <= n < |queue| ==>
      queue[n].s < queue[n].e <= |keys| && forall j :: queue[n].s <= j < queue[n].e ==> |keys[j]| >= queue[n].col
  }

  ghost function QueueWeight(keys: seq<string>, queue: seq<QElt>): (w: nat)
    requires InRange(keys, queue)
    ensures |queue| > 0 ==> w > 0
  {
    if |queue| == 0 then 0
    else
      var q := queue[0];
      WeightOfChildren(keys, q.s, q.e, q.col);
      Weight(keys, q.s, q.e, q.col) + QueueWeight(keys, queue[1..])
  }

  lemma {:induction false} QueueWeightAppend(keys: seq<string>, a: seq<QElt>, b: seq<QElt>)
    requires InRange(keys, a) && InRange(keys, b)
    ensures InRange(keys, a + b)
    ensures QueueWeight(keys, a + b) == QueueWeight(keys, a) + QueueWeight(keys, b)
  {
    if |a| > 0 {
      QueueWeightAppend(keys, a[1..], b);
      assert (a + b)[1..] == a[1..] + b;
    } else {
      assert a + b == b;
    }
  }

  // ---- the invariant of the construction ----

  /** Nodes below `i` are finished; every queued node is the group of its prefix. */
  ghost predicate Building(keys: seq<string>, ss: DomainSet, queue: seq<QElt>,
                           first: seq<nat>, prefixes: seq<string>, i: nat) {
    && |queue| == |prefixes| == |ss.labels| + 1
    && |first| == i + 1 && i <= |queue|
    && first[0] == 0 && prefixes[0] == ""
    && first[i] == |ss.labels|
    && Queued(keys, queue, prefixes)
    && (forall k :: 0 <= k < i ==> NodeOk(keys, ss, first, prefixes, k))
    && (forall b: nat :: b >= |ss.labels| + i ==> !Bit(ss.labelBitmap, b))
    && (forall b: nat :: b >= i ==> !Bit(ss.leaves, b))
  }

  ghost predicate Queued(keys: seq<string>, queue: seq<QElt>, prefixes: seq<string>) {
    && |queue| == |prefixes|
    && forall n :: 0 <= n < |queue| ==>
         Group(keys, queue[n].s, queue[n].e, prefixes[n]) && queue[n].col == |prefixes[n]|
  }

  lemma QueuedInRange(keys: seq<string>, queue: seq<QElt>, prefixes: seq<string>)
    requires Queued(keys, queue, prefixes)
    ensures InRange(keys, queue)
  {
    forall n | 0 <= n < |queue|
      ensures queue[n].s < queue[n].e <= |keys|
      ensures forall j :: queue[n].s <= j < queue[n].e ==> |keys[j]| >= queue[n].col
    {
      assert Group(keys, queue[n].s, queue[n].e, prefixes[n]);
    }
  }

  /** Finished nodes stay finished when tables only grow behind them. */
  lemma NodeKept(keys: seq<string>, ss: DomainSet, first: seq<nat>, prefixes: seq<string>,
                 ss': DomainSet, first': seq<nat>, prefixes': seq<string>, k: nat)
    requires k + 1 < |first| && k < |prefixes| && NodeOk(keys, ss, first, prefixes, k)
    requires first <= first' && prefixes <= prefixes' && ss.labels <= ss'.labels
    requires |ss'.labels| < |prefixes'|
    requires forall b: nat :: b <= first[k + 1] + k ==> Bit(ss'.labelBitmap, b) == Bit(ss.labelBitmap, b)
    requires Bit(ss'.leaves, k) == Bit(ss.leaves, k)
    ensures NodeOk(keys, ss', first', prefixes', k)
  {
    assert first'[k] == first[k] && first'[k + 1] == first[k + 1] && prefixes'[k] == prefixes[k];
    assert ss'.labels[first'[k]..first'[k + 1]] == ss.labels[first[k]..first[k + 1]];
    forall l | first'[k] <= l < first'[k + 1]
      ensures prefixes'[l + 1] == prefixes'[k] + [ss'.labels[l]]
    {
      assert prefixes[l + 1] == prefixes[k] + [ss.labels[l]];
    }
  }

  // ---- one node ----

  /** The children of one node: a label and a queued group for each byte behind the prefix. */
  ghost predicate Children(keys: seq<string>, p: string, labels: string, queue: seq<QElt>, s: nat, j: nat)
    requires j <= |keys|
  {
    Groups(keys, p, labels, queue) && Bytes(keys, p, labels, s, j)
  }

  ghost predicate Groups(keys: seq<string>, p: string, labels: string, queue: seq<QElt>) {
    && |labels| == |queue|
    && forall n :: 0 <= n < |labels| ==>
         Group(keys, queue[n].s, queue[n].e, p + [labels[n]]) && queue[n].col == |p| + 1
  }

  /** `labels` lists, ascending, the bytes behind the prefix in the keys from `s` to `j`. */
  ghost predicate Bytes(keys: seq<string>, p: string, labels: string, s: nat, j: nat)
    requires j <= |keys|
  {
    && (forall n, m :: 0 <= n < m < |labels| ==> labels[n] < labels[m])
    && (forall t :: s <= t < j && |keys[t]| > |p| ==> keys[t][|p|] in labels)
  }

  lemma AddBytes(keys: seq<string>, p: string, labels: string, s: nat, frm: nat, to: nat)
    requires s <= frm < to <= |keys| && Bytes(keys, p, labels, s, frm)
    requires forall t :: frm <= t < to ==> |keys[t]| > |p|
    requires forall t :: frm <= t < to ==> keys[t][|p|] == keys[frm][|p|]
    requires forall n :: 0 <= n < |labels| ==> labels[n] < keys[frm][|p|]
    ensures Bytes(keys, p, labels + [keys[frm][|p|]], s, to)
  {
    var c := keys[frm][|p|];
    assert (labels + [c])[|labels|] == c;
    forall t | s <= t < to && |keys[t]| > |p| ensures keys[t][|p|] in labels + [c] {
      if t < frm { assert keys[t][|p|] in labels; }
    }
  }

  lemma AddGroup(keys: seq<string>, elt: QElt, p: string, labels: string, queue: seq<QElt>, frm: nat, to: nat)
    requires Sorted(keys) && Group(keys, elt.s, elt.e, p)
    requires elt.s <= frm < to <= elt.e && Children(keys, p, labels, queue, elt.s, frm)
    requires forall t :: frm <= t < elt.e ==> |keys[t]| > |p|
    requires forall t :: frm <= t < to ==> keys[t][|p|] == keys[frm][|p|]
    requires to < elt.e ==> keys[to][|p|] != keys[frm][|p|]
    requires forall n :: 0 <= n < |labels| ==> labels[n] < keys[frm][|p|]
    ensures Groups(keys, p, labels + [keys[frm][|p|]], queue + [QElt(frm, to, |p| + 1)])
  {
    forall t | elt.s <= t < frm && |keys[t]| > |p| ensures keys[t][|p|] != keys[frm][|p|] {
      assert keys[t][|p|] in labels;
    }
    SubGroup(keys, elt.s, elt.e, p, frm, to);
  }

  lemma NextIsGreater(keys: seq<string>, elt: QElt, p: string, frm: nat, to: nat)
    requires Sorted(keys) && Group(keys, elt.s, elt.e, p)
    requires elt.s <= frm < to < elt.e && |keys[frm]| > |p|
    ensures |keys[to]| > |p| && keys[frm][|p|] <= keys[to][|p|]
  {
    GroupOrder(keys, elt.s, elt.e, p);
  }

  lemma AddWeight(keys: seq<string>, queue: seq<QElt>, s: nat, frm: nat, to: nat, col: nat)
    requires s <= frm < to <= |keys| && Weighed(keys, queue, s, frm, col)
    requires forall t :: frm <= t < to ==> |keys[t]| >= col
    ensures Weighed(keys, queue + [QElt(frm, to, col)], s, to, col)
  {
    WeightSplit(keys, s, frm, to, col);
    QueueWeightAppend(keys, queue, [QElt(frm, to, col)]);
  }

  /** The end of the run of keys with the byte of `frm` at `col`. */
  method RunEnd(keys: seq<string>, frm: nat, e: nat, col: nat) returns (j: nat)
    requires frm < e <= |keys| && forall t :: frm <= t < e ==> |keys[t]| > col
    ensures frm < j <= e
    ensures forall t :: frm <= t < j ==> keys[t][col] == keys[frm][col]
    ensures j < e ==> keys[j][col] != keys[frm][col]
  {
    j := frm;
    while j < e && keys[j][col] == keys[frm][col]
      invariant frm <= j <= e
      invariant forall t :: frm <= t < j ==> keys[t][col] == keys[frm][col]
    {
      j := j + 1;
    }
  }

  /** The children of the keys up to `j` are listed and weighed. */
  ghost predicate Progress(keys: seq<string>, elt: QElt, s: nat, p: string, labels: string, queue: seq<QElt>, j: nat) {
    Listed(keys, elt, s, p, labels, queue, j) && Weighed(keys, queue, s, j, |p| + 1)
  }

  ghost predicate Listed(keys: seq<string>, elt: QElt, s: nat, p: string, labels: string, queue: seq<QElt>, j: nat) {
    && elt.s <= s <= j <= elt.e <= |keys|
    && (forall t :: s <= t < elt.e ==> |keys[t]| > |p|)
    && Children(keys, p, labels, queue, elt.s, j)
    && (j < elt.e ==> forall n :: 0 <= n < |labels| ==> labels[n] < keys[j][|p|])
  }

  ghost predicate Weighed(keys: seq<string>, queue: seq<QElt>, s: nat, j: nat, col: nat)
    requires j <= |keys|
  {
    InRange(keys, queue) && QueueWeight(keys, queue) == Weight(keys, s, j, col)
  }

  /** A first key equal to the prefix is a leaf and has no byte to offer. When the next one has a byte,
      so have all, and the prefix is a key at most once. */
  lemma Start(keys: seq<string>, elt: QElt, s: nat, p: string)
    requires Sorted(keys) && Group(keys, elt.s, elt.e, p)
    requires s == if |keys[elt.s]| == |p| then elt.s + 1 else elt.s
    ensures p in keys <==> |keys[elt.s]| == |p|
    ensures s < elt.e && |keys[s]| <= |p| ==> Repeats(keys)
    ensures (s < elt.e ==> |keys[s]| > |p|) ==> Progress(keys, elt, s, p, [], [], s) && AtMostOnce(keys, p)
  {
    GroupOrder(keys, elt.s, elt.e, p);
    assert s < elt.e && |keys[s]| <= |p| ==> keys[elt.s] == p == keys[s];
    if s < elt.e ==> |keys[s]| > |p| {
      assert forall t :: s <= t < elt.e ==> |keys[t]| > |p|;
      assert forall t :: 0 <= t < |keys| && keys[t] == p ==> t == elt.s;
    }
  }

  lemma Finish(keys: seq<string>, elt: QElt, s: nat, p: string, labels: string, queue: seq<QElt>)
    requires Group(keys, elt.s, elt.e, p) && Progress(keys, elt, s, p, labels, queue, elt.e)
    ensures InRange(keys, queue) && QueueWeight(keys, queue) < Weight(keys, elt.s, elt.e, |p|)
  {
    assert forall j :: elt.s <= j < elt.e ==> p <= keys[j];
    FinishWeight(keys, elt.s, s, elt.e, |p|);
  }

  lemma FinishWeight(keys: seq<string>, s: nat, m: nat, e: nat, col: nat)
    requires s <= m <= e <= |keys| && s < e
    requires forall j :: s <= j < e ==> |keys[j]| >= col
    ensures Weight(keys, m, e, col + 1) < Weight(keys, s, e, col)
  {
    WeightOfChildren(keys, m, e, col);
    WeightOfChildren(keys, s, m, col);
    WeightSplit(keys, s, m, e, col);
  }

  lemma Advance(keys: seq<string>, elt: QElt, s: nat, p: string, labels: string, queue: seq<QElt>, frm: nat, j: nat)
    requires Sorted(keys) && Group(keys, elt.s, elt.e, p)
    requires Listed(keys, elt, s, p, labels, queue, frm) && frm < j <= elt.e
    requires forall t :: frm <= t < j ==> keys[t][|p|] == keys[frm][|p|]
    requires j < elt.e ==> keys[j][|p|] != keys[frm][|p|]
    ensures Listed(keys, elt, s, p, labels + [keys[frm][|p|]], queue + [QElt(frm, j, |p| + 1)], j)
  {
    AddBytes(keys, p, labels, elt.s, frm, j);
    AddGroup(keys, elt, p, labels, queue, frm, j);
    if j < elt.e { NextIsGreater(keys, elt, p, frm, j); }
  }

  /** The inner loop of the construction. */
  method ListChildren(keys: seq<string>, elt: QElt, s: nat, ghost p: string)
    returns (labels: string, queue: seq<QElt>)
    requires Sorted(keys) && Group(keys, elt.s, elt.e, p) && elt.col == |p|
    requires Progress(keys, elt, s, p, [], [], s)
    ensures Children(keys, p, labels, queue, elt.s, elt.e)
    ensures InRange(keys, queue) && QueueWeight(keys, queue) < Weight(keys, elt.s, elt.e, elt.col)
  {
    hide Sorted, Children, Weighed, Group;
    labels, queue := [], [];
    var j := s;
    while j < elt.e
      invariant Progress(keys, elt, s, p, labels, queue, j)
    {
      var frm := j;
      j := RunEnd(keys, frm, elt.e, elt.col);
      Advance(keys, elt, s, p, labels, queue, frm, j);
      AddWeight(keys, queue, s, frm, j, elt.col + 1);
      queue := queue + [QElt(frm, j, elt.col + 1)];
      labels := labels + [keys[frm][elt.col]];
    }
    Finish(keys, elt, s, p, labels, queue);
  }

  // ---- the outer loop ----

  /** One zero per label and the closing one. */
  method MarkRun(bm: seq<Word>, at: nat, n: nat) returns (r: seq<Word>)
    requires forall b: nat :: b >= at ==> !Bit(bm, b)
    ensures forall b: nat :: Bit(r, b) == (b == at + n || Bit(bm, b))
  {
    r := bm;
    for k := 0 to n
      invariant forall b: nat :: Bit(r, b) == Bit(bm, b)
    {
      r := SetBit(r, at + k, false);
    }
    r := SetBit(r, at + n, true);
  }

  ghost function ChildPrefixes(p: string, labels: string): seq<string> {
    seq(|labels|, n requires 0 <= n < |labels| => p + [labels[n]])
  }

  /** The keys of the new node, given the labels of its run. */
  lemma NewKeysOk(keys: seq<string>, elt: QElt, p: string, labels: string,
                  ss: DomainSet, first: seq<nat>, prefixes: seq<string>, i: nat)
    requires Group(keys, elt.s, elt.e, p) && Bytes(keys, p, labels, elt.s, elt.e)
    requires |first| == i + 2 && first[i] <= first[i + 1] <= |ss.labels|
    requires ss.labels[first[i]..first[i + 1]] == labels
    requires i < |prefixes| && prefixes[i] == p
    requires (Bit(ss.leaves, i) <==> p in keys) && AtMostOnce(keys, p)
    ensures KeysOk(keys, ss, first, prefixes, i)
  {
    assert p <= keys[elt.s];
    forall c | HasPrefix(keys, p + [c])
      ensures c in labels
    {
      var j :| 0 <= j < |keys| && p + [c] <= keys[j];
      assert p <= keys[j] && keys[j][|p|] == c;
    }
  }

  /** The run of the new node, written behind `base` earlier labels. */
  lemma NewRunOk(p: string, labels: string, base: nat,
                 ss: DomainSet, first: seq<nat>, prefixes: seq<string>, i: nat)
    requires forall n, m :: 0 <= n < m < |labels| ==> labels[n] < labels[m]
    requires |first| == i + 2 && i <= first[i] == base && first[i + 1] == |ss.labels| == base + |labels|
    requires ss.labels[base..] == labels
    requires |prefixes| == base + 1 + |labels| && prefixes[i] == p
    requires prefixes[base + 1..] == ChildPrefixes(p, labels)
    requires forall b: nat :: base + i <= b <= |ss.labels| + i ==> (Bit(ss.labelBitmap, b) <==> b == |ss.labels| + i)
    ensures RunOk(ss, first, prefixes, i)
  {
    assert forall l :: base <= l < |ss.labels| ==> ss.labels[l] == labels[l - base];
    forall l | base <= l < |ss.labels|
      ensures prefixes[l + 1] == p + [ss.labels[l]]
    {
      assert prefixes[l + 1] == prefixes[base + 1..][l - base];
    }
  }

  lemma NewNodeOk(keys: seq<string>, ss: DomainSet, elt: QElt, first: seq<nat>, prefixes: seq<string>, i: nat,
                  ss': DomainSet, labels: string)
    requires |prefixes| == |ss.labels| + 1 && i < |prefixes| && |first| == i + 1 && first[i] == |ss.labels|
    requires Group(keys, elt.s, elt.e, prefixes[i]) && Bytes(keys, prefixes[i], labels, elt.s, elt.e)
    requires ss'.labels == ss.labels + labels
    requires forall b: nat :: b >= |ss.labels| + i ==> (Bit(ss'.labelBitmap, b) <==> b == |ss'.labels| + i)
    requires (Bit(ss'.leaves, i) <==> prefixes[i] in keys) && AtMostOnce(keys, prefixes[i])
    ensures NodeOk(keys, ss', first + [|ss'.labels|], prefixes + ChildPrefixes(prefixes[i], labels), i)
  {
    var first' := first + [|ss'.labels|];
    var prefixes' := prefixes + ChildPrefixes(prefixes[i], labels);
    NewRunOk(prefixes[i], labels, |ss.labels|, ss', first', prefixes', i);
    NewKeysOk(keys, elt, prefixes[i], labels, ss', first', prefixes', i);
  }

  lemma QueuedAppend(keys: seq<string>, queue: seq<QElt>, prefixes: seq<string>, p: string, labels: string,
                     more: seq<QElt>)
    requires Queued(keys, queue, prefixes) && Groups(keys, p, labels, more)
    ensures Queued(keys, queue + more, prefixes + ChildPrefixes(p, labels))
  {
  }

  /** One turn of the outer loop: node `i` is finished and its children are queued, unless the second
      key of the node has no byte behind the prefix either and is read out of range. */
  method Expand(keys: seq<string>, ss: DomainSet, queue: seq<QElt>, i: nat,
                ghost first: seq<nat>, ghost prefixes: seq<string>)
    returns (ok: bool, ss': DomainSet, queue': seq<QElt>, ghost first': seq<nat>, ghost prefixes': seq<string>)
    requires Sorted(keys) && Building(keys, ss, queue, first, prefixes, i) && i < |queue|
    ensures !ok ==> Repeats(keys)
    ensures ok ==> Building(keys, ss', queue', first', prefixes', i + 1)
    ensures ok ==> InRange(keys, queue[i..]) && InRange(keys, queue'[i + 1..])
    ensures ok ==> QueueWeight(keys, queue'[i + 1..]) < QueueWeight(keys, queue[i..])
  {
    var elt := queue[i];
    ghost var p := prefixes[i];
    assert Group(keys, elt.s, elt.e, p);
    assert p <= keys[elt.s];
    var s, leaves := elt.s, ss.leaves;
    if elt.col == |keys[elt.s]| {
      s := elt.s + 1;
      leaves := SetBit(leaves, i, true);
    }
    Start(keys, elt, s, p);
    if s < elt.e && |keys[s]| <= elt.col {
      return false, ss, queue, first, prefixes;
    }
    var labels, more := ListChildren(keys, elt, s, p);
    var bitmap := MarkRun(ss.labelBitmap, |ss.labels| + i, |labels|);
    ok, ss' := true, DomainSet(leaves, bitmap, ss.labels + labels);
    queue' := queue + more;
    first' := first + [|ss'.labels|];
    prefixes' := prefixes + ChildPrefixes(p, labels);
    ExpandKeeps(keys, ss, queue, first, prefixes, i, ss', labels, more);
    ExpandWeight(keys, queue, prefixes, i, more);
  }

  lemma ExpandKeeps(keys: seq<string>, ss: DomainSet, queue: seq<QElt>, first: seq<nat>, prefixes: seq<string>, i: nat,
                    ss': DomainSet, labels: string, more: seq<QElt>)
    requires Building(keys, ss, queue, first, prefixes, i) && i < |queue|
    requires Children(keys, prefixes[i], labels, more, queue[i].s, queue[i].e)
    requires ss'.labels == ss.labels + labels
    requires forall b: nat :: Bit(ss'.labelBitmap, b) == (b == |ss.labels| + i + |labels| || Bit(ss.labelBitmap, b))
    requires forall b: nat :: Bit(ss'.leaves, b) == ((b == i && prefixes[i] in keys) || Bit(ss.leaves, b))
    requires AtMostOnce(keys, prefixes[i])
    ensures Building(keys, ss', queue + more, first + [|ss'.labels|], prefixes + ChildPrefixes(prefixes[i], labels),
                     i + 1)
  {
    var first' := first + [|ss'.labels|];
    var prefixes' := prefixes + ChildPrefixes(prefixes[i], labels);
    assert Group(keys, queue[i].s, queue[i].e, prefixes[i]);
    QueuedAppend(keys, queue, prefixes, prefixes[i], labels, more);
    NewNodeOk(keys, ss, queue[i], first, prefixes, i, ss', labels);
    AllKept(keys, ss, first, prefixes, ss', first', prefixes', i);
  }

  lemma AllKept(keys: seq<string>, ss: DomainSet, first: seq<nat>, prefixes: seq<string>,
                ss': DomainSet, first': seq<nat>, prefixes': seq<string>, i: nat)
    requires |first| == i + 1 && i <= |prefixes| && first[i] == |ss.labels|
    requires forall k :: 0 <= k < i ==> NodeOk(keys, ss, first, prefixes, k)
    requires first <= first' && prefixes <= prefixes' && ss.labels <= ss'.labels
    requires |ss'.labels| < |prefixes'|
    requires forall b: nat :: b < |ss.labels| + i ==> Bit(ss'.labelBitmap, b) == Bit(ss.labelBitmap, b)
    requires forall b: nat :: b < i ==> Bit(ss'.leaves, b) == Bit(ss.leaves, b)
    ensures forall k :: 0 <= k < i ==> NodeOk(keys, ss', first', prefixes', k)
  {
    forall k | 0 <= k < i
      ensures NodeOk(keys, ss', first', prefixes', k)
    {
      FirstBelow(keys, ss, first, prefixes, k + 1, i);
      NodeKept(keys, ss, first, prefixes, ss', first', prefixes', k);
    }
  }

  lemma {:induction false} FirstBelow(keys: seq<string>, ss: DomainSet, first: seq<nat>, prefixes: seq<string>, k: nat,
                                      i: nat)
    requires |first| == i + 1 && i <= |prefixes| && k <= i
    requires forall n :: 0 <= n < i ==> NodeOk(keys, ss, first, prefixes, n)
    ensures first[k] <= first[i]
    decreases i - k
  {
    if k < i {
      assert NodeOk(keys, ss, first, prefixes, k);
      FirstBelow(keys, ss, first, prefixes, k + 1, i);
    }
  }

  lemma ExpandWeight(keys: seq<string>, queue: seq<QElt>, prefixes: seq<string>, i: nat, more: seq<QElt>)
    requires Queued(keys, queue, prefixes) && i < |queue|
    requires InRange(keys, more) && QueueWeight(keys, more) < Weight(keys, queue[i].s, queue[i].e, queue[i].col)
    ensures InRange(keys, queue[i..]) && InRange(keys, (queue + more)[i + 1..])
    ensures QueueWeight(keys, (queue + more)[i + 1..]) < QueueWeight(keys, queue[i..])
  {
    QueuedInRange(keys, queue, prefixes);
    assert (queue + more)[i + 1..] == queue[i + 1..] + more;
    QueueWeightAppend(keys, queue[i + 1..], more);
    assert queue[i..][1..] == queue[i + 1..];
  }

  /** What becomes of a build: an index out of range, or a set, or none for no keys. */
  datatype Outcome = OutOfRange | Built(value: Option<DomainSet>)

  /** Builds the succinct form of the given keys. */
  method Build(keys: seq<string>) returns (r: Outcome)
    requires Sorted(keys)
    ensures r == OutOfRange <==> Repeats(keys)
    ensures r.Built? ==> (r.value.None? <==> keys == [])
    ensures r.Built? && r.value.Some? ==> Represents(r.value.value, keys)
  {
    if |keys| == 0 {
      return Built(None);
    }
    var ss := DomainSet([], [], []);
    var queue := [QElt(0, |keys|, 0)];
    ghost var first: seq<nat>, prefixes: seq<string> := [0], [""];
    var i := 0;
    QueuedInRange(keys, queue, prefixes);
    while i < |queue|
      invariant 0 <= i && Building(keys, ss, queue, first, prefixes, i)
      invariant InRange(keys, queue[i..])
      decreases QueueWeight(keys, queue[i..])
    {
      var ok;
      ok, ss, queue, first, prefixes := Expand(keys, ss, queue, i, first, prefixes);
      if !ok {
        return OutOfRange;
      }
      i := i + 1;
    }
    LastIsLeaf(keys, ss, queue, first, prefixes);
    assert Encodes(keys, ss, first, prefixes);
    NothingRepeats(keys, ss, first, prefixes);
    return Built(Some(ss));
  }

  lemma LongerContinues(keys: seq<string>, p: string)
    requires HasPrefix(keys, p)
    ensures p in keys || exists c :: HasPrefix(keys, p + [c])
  {
    var j :| 0 <= j < |keys| && p <= keys[j];
    if p != keys[j] {
      assert p + [keys[j][|p|]] <= keys[j];
    }
  }

  /** The last node of the breadth-first order has no children, so it is a leaf: the leaf bitmap
      covers every node. */
  lemma LastIsLeaf(keys: seq<string>, ss: DomainSet, queue: seq<QElt>, first: seq<nat>, prefixes: seq<string>)
    requires |prefixes| > 0 && Building(keys, ss, queue, first, prefixes, |queue|)
    ensures forall k :: 0 <= k < |prefixes| ==> k / 64 < |ss.leaves|
  {
    var n := |prefixes| - 1;
    assert NodeOk(keys, ss, first, prefixes, n);
    assert ss.labels[first[n]..first[n + 1]] == [];
    LongerContinues(keys, prefixes[n]);
  }
}
