/** The reorder window of the O3 pipeline viewer: instructions arrive out of
    order, are held in a queue, and are printed in order of sequence number
    whenever the queue grows past a threshold. */
module PipeView {
  import opened Bits

  /** The fields the window looks at; `rest` stands for what is only printed. */
  datatype Inst = Inst(sn: int, fetch: int, retire: int, rest: int)

  /** A window: the held instructions and those taken out so far, in order. */
  datatype Window = Window(queue: seq<Inst>, popped: seq<Inst>)

  const EMPTY := Window([], [])

  // ----- stable sorting by sequence number

  function Insert(x: Inst, s: seq<Inst>): seq<Inst> {
    if s == [] || x.sn <= s[0].sn then [x] + s else [s[0]] + Insert(x, s[1..])
  }

  /** list.sort(compare_by_sn): equal sequence numbers keep their order. */
  function Sort(s: seq<Inst>): seq<Inst> {
    if s == [] then [] else Insert(s[0], Sort(s[1..]))
  }

  // ----- the window

  /** print_insts: sort, then take out instructions until `lower` are left. */
  function Flush(w: Window, lower: nat): Window {
    var q := Sort(w.queue);
    var c := if |q| > lower then |q| - lower else 0;
    Window(q[c..], w.popped + q[..c])
  }

  /** queue_inst */
  function Push(w: Window, x: Inst, max: nat, min: nat): Window {
    var w' := w.(queue := w.queue + [x]);
    if |w'.queue| > max then Flush(w', min) else w'
  }

  function Feed(t: seq<Inst>, max: nat, min: nat): Window {
    if t == [] then EMPTY else Push(Feed(t[..|t| - 1], max, min), t[|t| - 1], max, min)
  }

  /** The order in which a whole trace leaves the window. */
  function Order(t: seq<Inst>, max: nat, min: nat): seq<Inst> {
    Flush(Feed(t, max, min), 0).popped
  }

  // ----- what sorting means

  ghost predicate Sorted(s: seq<Inst>) {
    forall i, j :: 0 <= i < j < |s| ==> s[i].sn <= s[j].sn
  }

  /** The instructions with sequence number k, in order. */
  function Only(s: seq<Inst>, k: int): seq<Inst> {
    if s == [] then [] else (if s[0].sn == k then [s[0]] else []) + Only(s[1..], k)
  }

  /** Same instructions, and equal sequence numbers in the same order. */
  ghost predicate Same(s: seq<Inst>, t: seq<Inst>) {
    forall k :: Only(s, k) == Only(t, k)
  }

  lemma Associates(a: seq<Inst>, b: seq<Inst>, c: seq<Inst>)
    ensures a + (b + c) == a + b + c
  {
  }

  lemma {:induction false} OnlyConcat(a: seq<Inst>, b: seq<Inst>, k: int)
    ensures Only(a + b, k) == Only(a, k) + Only(b, k)
  {
    if a == [] {
      assert a + b == b;
    } else {
      OnlyConcat(a[1..], b, k);
      assert (a + b)[1..] == a[1..] + b;
      Associates(if a[0].sn == k then [a[0]] else [], Only(a[1..], k), Only(b, k));
    }
  }

  lemma {:induction false} OnlyInsert(x: Inst, s: seq<Inst>, k: int)
    ensures Only(Insert(x, s), k) == Only([x] + s, k)
  {
    assert ([x] + s)[1..] == s;
    if s != [] && x.sn > s[0].sn {
      OnlyInsert(x, s[1..], k);
      assert ([s[0]] + Insert(x, s[1..]))[1..] == Insert(x, s[1..]);
      assert ([x] + s[1..])[1..] == s[1..];
    }
  }

  lemma {:induction false} OnlySort(s: seq<Inst>, k: int)
    ensures Only(Sort(s), k) == Only(s, k)
  {
    if s != [] {
      OnlySort(s[1..], k);
      OnlyInsert(s[0], Sort(s[1..]), k);
      assert ([s[0]] + Sort(s[1..]))[1..] == Sort(s[1..]);
    }
  }

  lemma {:induction false} InsertMembers(x: Inst, s: seq<Inst>)
    ensures multiset(Insert(x, s)) == multiset(s) + multiset{x}
    ensures forall y :: y in Insert(x, s) ==> y == x || y in s
  {
    if s != [] && x.sn > s[0].sn {
      InsertMembers(x, s[1..]);
      assert s == [s[0]] + s[1..];
    }
  }

  lemma {:induction false} InsertSorted(x: Inst, s: seq<Inst>)
    requires Sorted(s)
    ensures Sorted(Insert(x, s))
  {
    if s != [] && x.sn > s[0].sn {
      var r := Insert(x, s[1..]);
      InsertSorted(x, s[1..]);
      InsertMembers(x, s[1..]);
      assert forall y :: y in s[1..] ==> s[0].sn <= y.sn;
      assert forall j :: 0 <= j < |r| ==> r[j] in r;
    }
  }

  lemma {:induction false} SortSorted(s: seq<Inst>)
    ensures Sorted(Sort(s)) && multiset(Sort(s)) == multiset(s) && |Sort(s)| == |s|
  {
    if s != [] {
      SortSorted(s[1..]);
      InsertSorted(s[0], Sort(s[1..]));
      InsertMembers(s[0], Sort(s[1..]));
      assert s == [s[0]] + s[1..];
      assert |multiset(Sort(s))| == |Sort(s)| && |multiset(s)| == |s|;
    }
  }

  lemma {:induction false} OnlyMember(s: seq<Inst>, i: nat)
    requires i < |s|
    ensures Only(s, s[i].sn) != []
  {
    if i > 0 { OnlyMember(s[1..], i - 1); }
  }

  lemma OnlyHead(t: seq<Inst>)
    ensures t != [] ==> Only(t, t[0].sn) != []
  {
  }

  lemma {:induction false} OnlyIsMember(s: seq<Inst>, k: int)
    requires Only(s, k) != []
    ensures exists i :: 0 <= i < |s| && s[i].sn == k
  {
    if s[0].sn != k {
      OnlyIsMember(s[1..], k);
      var i :| 0 <= i < |s[1..]| && s[1..][i].sn == k;
      assert s[i + 1].sn == k;
    }
  }

  /** A sorted sequence is determined by its runs of equal sequence numbers. */
  lemma {:induction false} SortedUnique(s: seq<Inst>, t: seq<Inst>)
    requires Sorted(s) && Sorted(t) && Same(s, t)
    ensures s == t
    decreases |s|
  {
    if s == [] {
      OnlyHead(t);
    } else {
      OnlyMember(s, 0);
      assert Only(t, s[0].sn) == Only(s, s[0].sn);
      OnlyIsMember(t, s[0].sn);
      OnlyMember(t, 0);
      assert Only(s, t[0].sn) == Only(t, t[0].sn);
      OnlyIsMember(s, t[0].sn);
      assert s[0].sn == t[0].sn;
      assert s[0] == Only(s, s[0].sn)[0] == Only(t, t[0].sn)[0] == t[0];
      forall k ensures Only(s[1..], k) == Only(t[1..], k) {
        var h := if s[0].sn == k then [s[0]] else [];
        assert Only(s, k) == h + Only(s[1..], k) && Only(t, k) == h + Only(t[1..], k);
        assert Only(s[1..], k) == Only(s, k)[|h|..];
        assert Only(t[1..], k) == Only(t, k)[|h|..];
      }
      SortedUnique(s[1..], t[1..]);
    }
  }

  /** Whatever is sorted and holds the same instructions is the sorted trace. */
  lemma IsSort(s: seq<Inst>, t: seq<Inst>)
    requires Sorted(s) && Same(s, t)
    ensures s == Sort(t)
  {
    SortSorted(t);
    forall k ensures Only(s, k) == Only(Sort(t), k) { OnlySort(t, k); }
    SortedUnique(s, Sort(t));
  }

  // ----- nothing is lost or doubled, whatever the disorder

  /** What has left the window, followed by what it still holds. */
  function Through(w: Window): seq<Inst> { w.popped + w.queue }

  lemma FlushThrough(w: Window, lower: nat)
    ensures Through(Flush(w, lower)) == w.popped + Sort(w.queue)
  {
    var q := Sort(w.queue);
    var c := if |q| > lower then |q| - lower else 0;
    assert q == q[..c] + q[c..];
  }

  lemma FlushSame(w: Window, lower: nat)
    ensures Same(Through(Flush(w, lower)), Through(w))
  {
    FlushThrough(w, lower);
    forall k ensures Only(Through(Flush(w, lower)), k) == Only(Through(w), k) {
      OnlyConcat(w.popped, Sort(w.queue), k);
      OnlyConcat(w.popped, w.queue, k);
      OnlySort(w.queue, k);
    }
  }

  lemma {:induction false} FeedSame(t: seq<Inst>, max: nat, min: nat)
    ensures Same(Through(Feed(t, max, min)), t)
  {
    if t != [] {
      var t0, x := t[..|t| - 1], t[|t| - 1];
      FeedSame(t0, max, min);
      var w := Feed(t0, max, min);
      var w1 := w.(queue := w.queue + [x]);
      FlushSame(w1, min);
      assert Through(w1) == Through(w) + [x] && t == t0 + [x];
      forall k ensures Only(Through(Feed(t, max, min)), k) == Only(t, k) {
        OnlyConcat(Through(w), [x], k);
        OnlyConcat(t0, [x], k);
      }
    }
  }

  /** Every instruction leaves the window exactly once, and instructions with
      equal sequence numbers leave in order of arrival. */
  lemma OrderSame(t: seq<Inst>, max: nat, min: nat)
    ensures Same(Order(t, max, min), t)
  {
    var w := Feed(t, max, min);
    FeedSame(t, max, min);
    FlushSame(w, 0);
    SortSorted(w.queue);
    var w' := Flush(w, 0);
    assert w'.queue == [] && Through(w') == w'.popped;
  }

  // ----- when the order is right

  /** Every element of a comes no later than every element of b. */
  ghost predicate Below(a: seq<Inst>, b: seq<Inst>) {
    forall x, y :: x in a && y in b ==> x.sn <= y.sn
  }

  /** State of a window that has made no mistake so far. */
  ghost predicate Clean(w: Window) {
    Sorted(w.popped) && Below(w.popped, w.queue)
  }

  lemma SortedConcat(a: seq<Inst>, b: seq<Inst>)
    ensures Sorted(a + b) <==> Sorted(a) && Sorted(b) && Below(a, b)
  {
    if Sorted(a + b) {
      assert forall i :: 0 <= i < |a| ==> (a + b)[i] == a[i];
      assert forall i :: 0 <= i < |b| ==> (a + b)[|a| + i] == b[i];
    }
  }

  lemma SamePopulation(s: seq<Inst>)
    ensures forall x :: x in Sort(s) <==> x in s
  {
    SortSorted(s);
    assert forall x :: x in s <==> x in multiset(s);
    assert forall x :: x in Sort(s) <==> x in multiset(Sort(s));
  }

  lemma FlushClean(w: Window, lower: nat)
    requires Clean(w)
    ensures Clean(Flush(w, lower))
  {
    SortSorted(w.queue);
    SamePopulation(w.queue);
    var q := Sort(w.queue);
    var c := if |q| > lower then |q| - lower else 0;
    assert q == q[..c] + q[c..];
    SortedConcat(q[..c], q[c..]);
    SortedConcat(w.popped, q[..c]);
  }

  /** A clean window holds, in popped and queue, the sorted trace so far. */
  lemma CleanIsSorted(t: seq<Inst>, max: nat, min: nat)
    requires Clean(Feed(t, max, min))
    ensures var w := Feed(t, max, min); w.popped + Sort(w.queue) == Sort(t)
  {
    var w := Feed(t, max, min);
    FeedSame(t, max, min);
    SortSorted(w.queue);
    SamePopulation(w.queue);
    SortedConcat(w.popped, Sort(w.queue));
    forall k ensures Only(w.popped + Sort(w.queue), k) == Only(t, k) {
      OnlyConcat(w.popped, Sort(w.queue), k);
      OnlyConcat(w.popped, w.queue, k);
      OnlySort(w.queue, k);
    }
    IsSort(w.popped + Sort(w.queue), t);
  }

  /** Number of instructions that have left the window after n arrivals. */
  function Gone(n: nat, max: nat, min: nat): (g: nat)
    ensures g <= n
  {
    if n == 0 then 0
    else
      var g := Gone(n - 1, max, min);
      if n - g > max && n - g > min then n - min else g
  }

  lemma {:induction false} GoneCounts(t: seq<Inst>, max: nat, min: nat)
    ensures |Feed(t, max, min).popped| == Gone(|t|, max, min)
    ensures |Feed(t, max, min).queue| == |t| - Gone(|t|, max, min)
  {
    if t != [] {
      var t0 := t[..|t| - 1];
      GoneCounts(t0, max, min);
      var w := Feed(t0, max, min);
      SortSorted(w.queue + [t[|t| - 1]]);
    }
  }

  /** Instructions leave in batches of p, and fewer than p more than `min` stay. */
  lemma {:induction false} GoneBatches(n: nat, max: nat, min: nat, p: nat) returns (q: nat)
    requires min <= max && p == max + 1 - min
    ensures Gone(n, max, min) == q * p
    ensures if n < min then q == 0 else q * p + min <= n < q * p + min + p
  {
    if n == 0 {
      q := 0;
    } else {
      q := GoneBatches(n - 1, max, min, p);
      assert (q + 1) * p == q * p + p;
      if n == q * p + min + p { q := q + 1; }
    }
  }

  /** How many have left, in closed form: none until the queue first exceeds
      `max`, and from then on batches that bring it down to `min`. */
  lemma GoneExactly(n: nat, max: nat, min: nat)
    requires min <= max
    ensures Gone(n, max, min) == if n < min then 0 else (n - min) / (max + 1 - min) * (max + 1 - min)
  {
    var p := max + 1 - min;
    var q := GoneBatches(n, max, min, p);
    if n >= min { DivModUnique(n - min, p, q, n - min - q * p); }
  }

  /** So the window holds `max` instructions at most, if that is no less than
      `min`, and prints nothing before it would hold more. */
  lemma WindowHolds(t: seq<Inst>, max: nat, min: nat)
    requires min <= max
    ensures |Feed(t, max, min).queue| <= max && |Feed(t, max, min).queue| + |Feed(t, max, min).popped| == |t|
    ensures Feed(t, max, min).popped == [] <==> |t| <= max
  {
    GoneCounts(t, max, min);
    var q := GoneBatches(|t|, max, min, max + 1 - min);
    if q > 0 { MulMono(1, q, max + 1 - min); }
  }

  /** After m arrivals, none of the later ones belongs before the last
      instruction that has left: read off the trace alone. */
  ghost predicate TimelyAt(t: seq<Inst>, m: nat, max: nat, min: nat)
    requires m <= |t|
  {
    var g := Gone(m, max, min);
    g > 0 ==> (SortSorted(t[..m]); forall i :: m <= i < |t| ==> Sort(t[..m])[g - 1].sn <= t[i].sn)
  }

  ghost predicate Timely(t: seq<Inst>, max: nat, min: nat) {
    forall m :: 0 <= m <= |t| ==> TimelyAt(t, m, max, min)
  }

  lemma PoppedIsPrefix(t: seq<Inst>, max: nat, min: nat)
    requires Clean(Feed(t, max, min))
    ensures var g := Gone(|t|, max, min);
            |Sort(t)| == |t| && Feed(t, max, min).popped == Sort(t)[..g]
  {
    CleanIsSorted(t, max, min);
    GoneCounts(t, max, min);
    SortSorted(t);
  }

  lemma PushClean(w: Window, x: Inst, max: nat, min: nat)
    requires Clean(w) && Below(w.popped, [x])
    ensures Clean(Push(w, x, max, min))
  {
    var w1 := w.(queue := w.queue + [x]);
    assert x in [x];
    assert Clean(w1);
    FlushClean(w1, min);
  }

  lemma PoppedBelowRest(t: seq<Inst>, m: nat, max: nat, min: nat)
    requires m <= |t| && Clean(Feed(t[..m], max, min)) && TimelyAt(t, m, max, min)
    ensures Below(Feed(t[..m], max, min).popped, t[m..])
  {
    var g, s := Gone(m, max, min), Sort(t[..m]);
    PoppedIsPrefix(t[..m], max, min);
    SortSorted(t[..m]);
    if g > 0 {
      BelowFrom(s, g, t, m);
    }
  }

  lemma BelowFrom(s: seq<Inst>, g: nat, t: seq<Inst>, m: nat)
    requires Sorted(s) && 0 < g <= |s| && m <= |t|
    requires forall i :: m <= i < |t| ==> s[g - 1].sn <= t[i].sn
    ensures Below(s[..g], t[m..])
  {
    forall a, b | a in s[..g] && b in t[m..] ensures a.sn <= b.sn {
      var i :| 0 <= i < g && s[i] == a;
      var j :| m <= j < |t| && t[j] == b;
      assert a.sn <= s[g - 1].sn;
    }
  }

  /** Timely arrivals keep the window clean. */
  lemma {:induction false} TimelyClean(t: seq<Inst>, m: nat, max: nat, min: nat)
    requires Timely(t, max, min) && m <= |t|
    ensures Clean(Feed(t[..m], max, min)) && Below(Feed(t[..m], max, min).popped, t[m..])
    decreases m
  {
    if m > 0 {
      TimelyClean(t, m - 1, max, min);
      var w, x := Feed(t[..m - 1], max, min), t[m - 1];
      assert t[..m][..m - 1] == t[..m - 1];
      assert Below(w.popped, [x]) by { assert x in t[m - 1..]; }
      PushClean(w, x, max, min);
      assert TimelyAt(t, m, max, min);
      PoppedBelowRest(t, m, max, min);
    } else {
      assert t[..0] == [];
    }
  }

  /** What leaves the window is never taken back. */
  lemma {:induction false} PoppedGrows(t: seq<Inst>, m: nat, max: nat, min: nat)
    requires m <= |t|
    ensures Feed(t[..m], max, min).popped <= Feed(t, max, min).popped
  {
    if m == |t| {
      assert t[..m] == t;
    } else {
      PoppedGrows(t[..|t| - 1], m, max, min);
      assert t[..|t| - 1][..m] == t[..m];
    }
  }

  lemma CancelSame(p: seq<Inst>, a: seq<Inst>, b: seq<Inst>)
    requires Same(p + a, p + b)
    ensures Same(a, b)
  {
    forall k ensures Only(a, k) == Only(b, k) {
      OnlyConcat(p, a, k);
      OnlyConcat(p, b, k);
      var n := |Only(p, k)|;
      assert Only(a, k) == Only(p + a, k)[n..];
      assert Only(b, k) == Only(p + b, k)[n..];
    }
  }

  lemma ThroughSame(w: Window, fed: seq<Inst>, later: seq<Inst>)
    requires Same(Through(w), fed)
    ensures Same(w.popped + (w.queue + later), fed + later)
  {
    Associates(w.popped, w.queue, later);
    forall k ensures Only(w.popped + (w.queue + later), k) == Only(fed + later, k) {
      OnlyConcat(Through(w), later, k);
      OnlyConcat(fed, later, k);
    }
  }

  /** The order splits at any moment into what had left by then and the rest. */
  lemma RestAt(t: seq<Inst>, m: nat, max: nat, min: nat) returns (rest: seq<Inst>)
    requires m <= |t|
    ensures var w := Feed(t[..m], max, min);
            && Order(t, max, min) == w.popped + rest
            && Same(rest, w.queue + t[m..])
  {
    var w := Feed(t[..m], max, min);
    PoppedGrows(t, m, max, min);
    var o := Order(t, max, min);
    rest := o[|w.popped|..];
    assert o == w.popped + rest;
    OrderSame(t, max, min);
    FeedSame(t[..m], max, min);
    assert t == t[..m] + t[m..];
    ThroughSame(w, t[..m], t[m..]);
    CancelSame(w.popped, rest, w.queue + t[m..]);
  }

  lemma BelowSame(p: seq<Inst>, a: seq<Inst>, b: seq<Inst>)
    requires Below(p, a) && Same(a, b)
    ensures Below(p, b)
  {
    forall x, y | x in p && y in b ensures x.sn <= y.sn {
      var i :| 0 <= i < |b| && b[i] == y;
      OnlyMember(b, i);
      assert Only(a, y.sn) == Only(b, y.sn);
      OnlyIsMember(a, y.sn);
    }
  }

  lemma SortedTimelyAt(t: seq<Inst>, m: nat, max: nat, min: nat)
    requires Sorted(Order(t, max, min)) && m <= |t|
    ensures TimelyAt(t, m, max, min)
  {
    var w := Feed(t[..m], max, min);
    var rest := RestAt(t, m, max, min);
    SortedConcat(w.popped, rest);
    BelowSame(w.popped, rest, w.queue + t[m..]);
    assert Below(w.popped, w.queue);
    PoppedIsPrefix(t[..m], max, min);
    var g := Gone(m, max, min);
    if g > 0 {
      assert Sort(t[..m])[g - 1] == w.popped[g - 1];
      forall i | m <= i < |t| ensures Sort(t[..m])[g - 1].sn <= t[i].sn {
        assert t[i] == t[m..][i - m];
        assert t[i] in w.queue + t[m..];
      }
    }
  }

  lemma CleanOrder(t: seq<Inst>, max: nat, min: nat)
    requires Clean(Feed(t, max, min))
    ensures Order(t, max, min) == Sort(t)
  {
    var w := Feed(t, max, min);
    var q := Sort(w.queue);
    CleanIsSorted(t, max, min);
    SortSorted(w.queue);
    assert q[..|q|] == q;
  }

  /** Main result.  For every trace and all thresholds the instructions leave in
      order of sequence number exactly when arrivals are timely, and then in
      the order of a stable sort of the whole trace. */
  lemma OrderedExactly(t: seq<Inst>, max: nat, min: nat)
    ensures Sorted(Order(t, max, min)) <==> Timely(t, max, min)
    ensures Timely(t, max, min) ==> Order(t, max, min) == Sort(t)
  {
    if Timely(t, max, min) {
      TimelyClean(t, |t|, max, min);
      assert t[..|t|] == t;
      CleanOrder(t, max, min);
      SortSorted(t);
    }
    if Sorted(Order(t, max, min)) {
      forall m | 0 <= m <= |t| ensures TimelyAt(t, m, max, min) {
        SortedTimelyAt(t, m, max, min);
      }
    }
  }

  // ----- the documented assumption

  function CountBelow(s: seq<Inst>, v: int): nat {
    if s == [] then 0 else (if s[0].sn < v then 1 else 0) + CountBelow(s[1..], v)
  }

  /** Place of the i-th arrival in order of sequence number, arrivals with equal
      sequence numbers in order of arrival. */
  function Rank(t: seq<Inst>, i: nat): nat
    requires i < |t|
  {
    CountBelow(t, t[i].sn) + |Only(t[..i], t[i].sn)|
  }

  /** No instruction arrives more than `min` places after its own. */
  ghost predicate Bounded(t: seq<Inst>, min: nat) {
    forall i :: 0 <= i < |t| ==> i <= Rank(t, i) + min
  }

  lemma {:induction false} CountConcat(a: seq<Inst>, b: seq<Inst>, v: int)
    ensures CountBelow(a + b, v) == CountBelow(a, v) + CountBelow(b, v)
  {
    if a == [] {
      assert a + b == b;
    } else {
      CountConcat(a[1..], b, v);
      assert (a + b)[1..] == a[1..] + b;
    }
  }

  lemma {:induction false} CountInsert(x: Inst, s: seq<Inst>, v: int)
    ensures CountBelow(Insert(x, s), v) == CountBelow([x] + s, v)
  {
    assert ([x] + s)[1..] == s;
    if s != [] && x.sn > s[0].sn {
      CountInsert(x, s[1..], v);
      assert ([s[0]] + Insert(x, s[1..]))[1..] == Insert(x, s[1..]);
      assert ([x] + s[1..])[1..] == s[1..];
    }
  }

  lemma {:induction false} CountSort(s: seq<Inst>, v: int)
    ensures CountBelow(Sort(s), v) == CountBelow(s, v)
  {
    if s != [] {
      CountSort(s[1..], v);
      CountInsert(s[0], Sort(s[1..]), v);
      assert ([s[0]] + Sort(s[1..]))[1..] == Sort(s[1..]);
    }
  }

  lemma {:induction false} CountNone(s: seq<Inst>, v: int)
    requires forall i :: 0 <= i < |s| ==> v <= s[i].sn
    ensures CountBelow(s, v) == 0
  {
    if s != [] { CountNone(s[1..], v); }
  }

  lemma {:induction false} CountAtMost(s: seq<Inst>, v: int)
    ensures CountBelow(s, v) <= |s|
  {
    if s != [] { CountAtMost(s[1..], v); }
  }

  lemma {:induction false} CountAll(s: seq<Inst>, v: int)
    requires forall i :: 0 <= i < |s| ==> s[i].sn < v
    ensures CountBelow(s, v) == |s|
  {
    if s != [] { CountAll(s[1..], v); }
  }

  /** Strictly below v + 1: below v or equal to v. */
  lemma {:induction false} CountSplit(s: seq<Inst>, v: int, w: int)
    requires v < w
    ensures CountBelow(s, v) + |Only(s, v)| == CountBelow(s, v + 1) <= CountBelow(s, w)
  {
    if s != [] { CountSplit(s[1..], v, w); }
  }

  /** At most g - 1 instructions are smaller than the g-th smallest. */
  lemma SmallerThanNth(s: seq<Inst>, g: nat)
    requires 0 < g <= |s|
    ensures |Sort(s)| == |s| && CountBelow(s, Sort(s)[g - 1].sn) < g
  {
    SortSorted(s);
    var q := Sort(s);
    var v := q[g - 1].sn;
    CountSort(s, v);
    assert q == q[..g - 1] + q[g - 1..];
    CountConcat(q[..g - 1], q[g - 1..], v);
    CountNone(q[g - 1..], v);
    CountAtMost(q[..g - 1], v);
  }

  /** First position of the smallest sequence number from m on. */
  lemma {:induction false} FirstSmallest(t: seq<Inst>, m: nat) returns (i: nat)
    requires m < |t|
    ensures m <= i < |t|
    ensures forall j :: m <= j < |t| ==> t[i].sn <= t[j].sn
    ensures forall j :: m <= j < i ==> t[i].sn < t[j].sn
    decreases |t| - m
  {
    i := m;
    if m + 1 < |t| {
      var k := FirstSmallest(t, m + 1);
      if t[k].sn < t[m].sn { i := k; }
    }
  }

  lemma {:induction false} OnlyNone(s: seq<Inst>, v: int)
    requires forall i :: 0 <= i < |s| ==> s[i].sn != v
    ensures Only(s, v) == []
  {
    if s != [] { OnlyNone(s[1..], v); }
  }

  /** The smallest late arrival ranks among the early ones only. */
  lemma RankOfSmallest(t: seq<Inst>, m: nat, i: nat)
    requires m <= i < |t|
    requires forall j :: m <= j < |t| ==> t[i].sn <= t[j].sn
    requires forall j :: m <= j < i ==> t[i].sn < t[j].sn
    ensures Rank(t, i) == CountBelow(t[..m], t[i].sn + 1)
  {
    var v := t[i].sn;
    assert t == t[..m] + t[m..] && t[..i] == t[..m] + t[m..i];
    CountConcat(t[..m], t[m..], v);
    CountNone(t[m..], v);
    OnlyConcat(t[..m], t[m..i], v);
    OnlyNone(t[m..i], v);
    CountSplit(t[..m], v, v + 1);
  }

  lemma {:induction false} GoneKeepsBack(n: nat, max: nat, min: nat)
    ensures Gone(n, max, min) > 0 ==> Gone(n, max, min) + min <= n
  {
    if n > 0 { GoneKeepsBack(n - 1, max, min); }
  }

  /** Too few early arrivals are below v for a late one to be below it. */
  lemma LateNotSmaller(t: seq<Inst>, m: nat, i: nat, g: nat, v: int, min: nat)
    requires Bounded(t, min) && m <= i < |t| && g + min <= m
    requires forall j :: m <= j < |t| ==> t[i].sn <= t[j].sn
    requires forall j :: m <= j < i ==> t[i].sn < t[j].sn
    requires CountBelow(t[..m], v) < g
    ensures v <= t[i].sn
  {
    RankOfSmallest(t, m, i);
    if t[i].sn < v {
      CountSplit(t[..m], t[i].sn, v);
      assert false;
    }
  }

  lemma BoundedTimelyAt(t: seq<Inst>, m: nat, max: nat, min: nat)
    requires Bounded(t, min) && m <= |t|
    ensures TimelyAt(t, m, max, min)
  {
    var g := Gone(m, max, min);
    GoneKeepsBack(m, max, min);
    if g > 0 && m < |t| {
      var i := FirstSmallest(t, m);
      SmallerThanNth(t[..m], g);
      LateNotSmaller(t, m, i, g, Sort(t[..m])[g - 1].sn, min);
    }
  }

  /** The documented assumption suffices: if no instruction arrives more than
      `min` places after its own, then for every trace and every `max` the
      instructions leave exactly in the order of the sorted trace. */
  lemma BoundedSuffices(t: seq<Inst>, max: nat, min: nat)
    requires Bounded(t, min)
    ensures Order(t, max, min) == Sort(t)
  {
    forall m | 0 <= m <= |t| ensures TimelyAt(t, m, max, min) {
      BoundedTimelyAt(t, m, max, min);
    }
    OrderedExactly(t, max, min);
  }

  lemma {:induction false} GoneTight(n: nat, max: nat, min: nat)
    requires max <= min
    ensures Gone(n, max, min) == if n > min then n - min else 0
  {
    if n > 0 { GoneTight(n - 1, max, min); }
  }

  lemma {:induction false} CountPrefix(t: seq<Inst>, i: nat, v: int)
    requires i <= |t|
    ensures CountBelow(t[..i], v) <= CountBelow(t, v)
  {
    CountConcat(t[..i], t[i..], v);
    assert t == t[..i] + t[i..];
  }

  lemma PrefixCounts(q: seq<Inst>, g: nat, v: int)
    requires Sorted(q) && 0 < g <= |q| && q[g - 1].sn <= v
    ensures g <= CountBelow(q, v + 1)
  {
    assert q == q[..g] + q[g..];
    CountAll(q[..g], v + 1);
    CountConcat(q[..g], q[g..], v + 1);
  }

  lemma NthAtMost(s: seq<Inst>, g: nat, v: int)
    requires 0 < g <= |s| == |Sort(s)| && Sort(s)[g - 1].sn <= v
    ensures g <= CountBelow(s, v) + |Only(s, v)|
  {
    SortSorted(s);
    PrefixCounts(Sort(s), g, v);
    CountSort(s, v + 1);
    CountSplit(s, v, v + 1);
  }

  /** It is also necessary when the window flushes at every arrival. */
  lemma BoundedNecessary(t: seq<Inst>, max: nat, min: nat)
    requires max <= min && Sorted(Order(t, max, min))
    ensures Bounded(t, min)
  {
    OrderedExactly(t, max, min);
    forall i | 0 <= i < |t| ensures i <= Rank(t, i) + min {
      GoneTight(i, max, min);
      SortSorted(t[..i]);
      CountPrefix(t, i, t[i].sn);
      if i > min {
        assert TimelyAt(t, i, max, min);
        NthAtMost(t[..i], i - min, t[i].sn);
      }
    }
  }

  /** Thresholds of one, and a third arrival that belongs first: it is printed
      second. */
  lemma LateArrivalMisplaced(a: Inst, b: Inst, c: Inst)
    requires a.sn == 2 && b.sn == 3 && c.sn == 1
    ensures Order([a, b, c], 1, 1) == [a, c, b] && !Sorted([a, c, b])
  {
    var t := [a, b, c];
    assert t[..2] == [a, b] && [a, b][..1] == [a] && [a][..0] == [];
    assert Feed([a], 1, 1) == Window([a], []) by { assert [] + [a] == [a]; }
    assert Feed([a, b], 1, 1) == Window([b], [a]) by { FlushTwo(a, b, []); }
    assert Feed(t, 1, 1) == Window([b], [a, c]) by { FlushTwo(b, c, [a]); }
    assert Flush(Window([b], [a, c]), 0) == Window([], [a, c, b]) by {
      assert Sort([b]) == [b] && [b][1..] == [] && [b][..1] == [b] && [a, c] + [b] == [a, c, b];
    }
    assert [a, c, b][0].sn > [a, c, b][1].sn;
  }

  lemma FlushTwo(x: Inst, y: Inst, popped: seq<Inst>)
    ensures var q := if x.sn <= y.sn then [x, y] else [y, x];
            [x] + [y] == [x, y] && Flush(Window([x, y], popped), 1) == Window([q[1]], popped + [q[0]])
  {
    var q := if x.sn <= y.sn then [x, y] else [y, x];
    assert [x, y][1..] == [y] && [y][1..] == [];
    assert Sort([y]) == [y];
    assert Insert(x, [y]) == q by { assert [x] + [y] == [x, y] && [y] + [x] == [y, x]; }
    assert q[1..] == [q[1]] && q[..1] == [q[0]];
  }

  // ----- what is printed

  /** Range filters; a bound of 0 (or less) is no bound. */
  datatype Filters = Filters(snStart: int, snStop: int, tickStart: int, tickStop: int, onlyCommitted: bool)

  predicate Passes(f: Filters, x: Inst) {
    && !(f.snStart > 0 && x.sn < f.snStart)
    && !(f.snStop > 0 && x.sn > f.snStop)
    && !(f.tickStart > 0 && x.fetch < f.tickStart)
    && !(f.tickStop > 0 && x.fetch > f.tickStop)
    && !(f.onlyCommitted && x.retire == 0)
  }

  function Keep(f: Filters, s: seq<Inst>): seq<Inst> {
    if s == [] then [] else (if Passes(f, s[0]) then [s[0]] else []) + Keep(f, s[1..])
  }

  lemma {:induction false} KeepConcat(f: Filters, a: seq<Inst>, b: seq<Inst>)
    ensures Keep(f, a + b) == Keep(f, a) + Keep(f, b)
  {
    if a == [] {
      assert a + b == b;
    } else {
      KeepConcat(f, a[1..], b);
      assert (a + b)[1..] == a[1..] + b;
      Associates(if Passes(f, a[0]) then [a[0]] else [], Keep(f, a[1..]), Keep(f, b));
    }
  }

  lemma {:induction false} KeepSorted(f: Filters, s: seq<Inst>)
    requires Sorted(s)
    ensures Sorted(Keep(f, s)) && forall x :: x in Keep(f, s) ==> x in s
  {
    if s != [] {
      KeepSorted(f, s[1..]);
      var h := if Passes(f, s[0]) then [s[0]] else [];
      assert forall x :: x in s[1..] ==> s[0].sn <= x.sn;
      SortedConcat(h, Keep(f, s[1..]));
    }
  }

  lemma {:induction false} KeepCount(f: Filters, s: seq<Inst>, x: Inst)
    ensures multiset(Keep(f, s))[x] == if Passes(f, x) then multiset(s)[x] else 0
  {
    if s != [] {
      KeepCount(f, s[1..], x);
      assert s == [s[0]] + s[1..];
    }
  }

  /** A bound that is not positive is no bound. */
  predicate Within(lo: int, v: int, hi: int) {
    (lo > 0 ==> lo <= v) && (hi > 0 ==> v <= hi)
  }

  /** What the options ask for: sequence number and fetch tick within their
      ranges and, for committed instructions only, a retire tick. */
  predicate Wanted(f: Filters, x: Inst) {
    && Within(f.snStart, x.sn, f.snStop) && Within(f.tickStart, x.fetch, f.tickStop)
    && (f.onlyCommitted ==> x.retire != 0)
  }

  /** Main result for the viewer.  Under the documented assumption the printed
      lines are in order of sequence number and are exactly the queued
      instructions that pass the filters, each as often as it was queued. */
  lemma PrintedInOrder(f: Filters, t: seq<Inst>, max: nat, min: nat)
    requires Bounded(t, min)
    ensures var out := Keep(f, Order(t, max, min));
            && Sorted(out)
            && forall x :: multiset(out)[x] == if Wanted(f, x) then multiset(t)[x] else 0
  {
    BoundedSuffices(t, max, min);
    SortSorted(t);
    KeepSorted(f, Sort(t));
    forall x ensures multiset(Keep(f, Sort(t)))[x] == if Wanted(f, x) then multiset(t)[x] else 0 {
      KeepCount(f, Sort(t), x);
    }
  }

  // ----- the viewer in place

  class Viewer {
    const max: nat
    const min: nat
    const filters: Filters
    var queue: seq<Inst>
    var printed: seq<Inst>
    ghost var popped: seq<Inst>

    ghost predicate Valid()
      reads this
    {
      printed == Keep(filters, popped)
    }

    ghost function Value(): Window
      reads this
    {
      Window(queue, popped)
    }

    constructor (max: nat, min: nat, f: Filters)
      ensures Valid() && Value() == EMPTY
      ensures this.max == max && this.min == min && filters == f
    {
      this.max, this.min, filters := max, min, f;
      queue, printed, popped := [], [], [];
    }

    /** Prints an instruction unless a filter excludes it. */
    method PrintItem(item: Inst)
      requires Valid()
      modifies this`printed, this`popped
      ensures Valid() && popped == old(popped) + [item]
    {
      KeepConcat(filters, popped, [item]);
      popped := popped + [item];
      if filters.snStart > 0 && item.sn < filters.snStart { return; }
      if filters.snStop > 0 && item.sn > filters.snStop { return; }
      if filters.tickStart > 0 && item.fetch < filters.tickStart { return; }
      if filters.tickStop > 0 && item.fetch > filters.tickStop { return; }
      if filters.onlyCommitted && item.retire == 0 { return; }
      printed := printed + [item];
    }

    /** print_insts */
    method PrintInsts(lower: nat)
      requires Valid()
      modifies this
      ensures Valid() && Value() == Flush(old(Value()), lower)
    {
      queue := Sort(queue);
      ghost var q, c, before := queue, 0, popped;
      while |queue| > lower
        invariant Valid() && 0 <= c <= |q|
        invariant |queue| == |q| - c && (c > 0 ==> |queue| >= lower)
        invariant queue == q[c..] && popped == before + q[..c]
      {
        var item := queue[0];
        assert q[..c] + [item] == q[..c + 1];
        queue := queue[1..];
        PrintItem(item);
        c := c + 1;
      }
    }

    /** queue_inst */
    method QueueInst(x: Inst)
      requires Valid()
      modifies this
      ensures Valid() && Value() == Push(old(Value()), x, max, min)
    {
      queue := queue + [x];
      if |queue| > max {
        PrintInsts(min);
      }
    }
  }

  /** The main loop of the viewer over a complete trace. */
  method View(t: seq<Inst>, max: nat, min: nat, f: Filters) returns (out: seq<Inst>)
    ensures out == Keep(f, Order(t, max, min))
  {
    var v := new Viewer(max, min, f);
    var i := 0;
    while i < |t|
      invariant 0 <= i <= |t|
      invariant fresh(v) && v.Valid() && v.Value() == Feed(t[..i], max, min)
      invariant v.max == max && v.min == min && v.filters == f
    {
      assert t[..i + 1][..i] == t[..i];
      v.QueueInst(t[i]);
      i := i + 1;
    }
    assert t[..i] == t;
    v.PrintInsts(0);
    out := v.printed;
  }
}
