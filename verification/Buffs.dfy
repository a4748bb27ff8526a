/**
 The buffs of a character: internal/buffs/buffs.go, with the table of buff specs of buffspec.go as a
 constant. Buffs are objects in a list; two lookups index the list by buff id and by flag.
 */
module Buffs {
  import opened Common

  const TRIGGERS_LEFT_UNLIMITED := 1_000_000_000

  // The flag ALL, the empty string, stands for any flag.
  const ALL := ""

  datatype BuffSpec = BuffSpec(buffId: int, roundInterval: int, triggerCount: int, flags: seq<string>)

  // What loading a spec checks, and the key it is stored under
  predicate Loaded(specs: map<int, BuffSpec>) {
    forall id :: id in specs ==> specs[id].buffId == id && specs[id].triggerCount >= 1 && specs[id].roundInterval >= 1
  }

  function SpecKey(buffId: int): int {
    if buffId < 0 then -buffId else buffId
  }

  // GetBuffSpec finds something.
  predicate Known(specs: map<int, BuffSpec>, buffId: int) {
    SpecKey(buffId) in specs
  }

  function FlagsOf(specs: map<int, BuffSpec>, buffId: int): seq<string> {
    if Known(specs, buffId) then specs[SpecKey(buffId)].flags else []
  }

  // ---------- the life of a buff ----------

  // A buff's counters; it is over when no triggers are left.
  datatype Life = Life(roundCounter: int, triggersLeft: int)

  predicate Over(l: Life) {
    l.triggersLeft <= 0
  }

  predicate Due(round: int, interval: int)
    requires interval >= 1
  {
    round % interval == 0
  }

  // Whether a round triggers the buff
  predicate Fires(l: Life, interval: int)
    requires interval >= 1
  {
    l.triggersLeft > 0 && Due(l.roundCounter + 1, interval)
  }

  // One round
  function Tick(l: Life, interval: int): Life
    requires interval >= 1
  {
    if l.triggersLeft <= 0 then l
    else if !Fires(l, interval) then l.(roundCounter := l.roundCounter + 1)
    else if l.triggersLeft == TRIGGERS_LEFT_UNLIMITED then l.(roundCounter := 0)
    else Life(l.roundCounter + 1, l.triggersLeft - 1)
  }

  function Ticks(l: Life, interval: int, k: nat): Life
    requires interval >= 1
  {
    if k == 0 then l else Tick(Ticks(l, interval, k - 1), interval)
  }

  // How often k rounds trigger the buff
  function Firings(l: Life, interval: int, k: nat): nat
    requires interval >= 1
  {
    if k == 0 then 0 else Firings(l, interval, k - 1) + if Fires(Ticks(l, interval, k - 1), interval) then 1 else 0
  }

  function Div(a: int, b: int): int
    requires b >= 1
  {
    a / b
  }

  lemma DivNext(a: int, b: int)
    requires b >= 1
    ensures Div(a + 1, b) == Div(a, b) + if Due(a + 1, b) then 1 else 0
  {
    var q, r := a / b, a % b;
    assert a == b * q + r && 0 <= r < b;
    if r + 1 == b {
      DivUnique(a + 1, b, q + 1, 0);
    } else {
      DivUnique(a + 1, b, q, r + 1);
    }
  }

  lemma DivUnique(a: int, b: int, q: int, r: int)
    requires b >= 1 && a == b * q + r && 0 <= r < b
    ensures a / b == q && a % b == r
  {
    var q', r' := a / b, a % b;
    assert b * (q - q') == r' - r;
    AtLeastOnce(b, q - q');
  }

  lemma AtLeastOnce(b: int, m: int)
    requires b >= 1
    ensures m >= 1 ==> b * m >= b
    ensures m <= -1 ==> b * m <= -b
  {
    if m >= 1 {
      assert b * m == b + b * (m - 1);
    } else if m <= -1 {
      assert b * m == -b + b * (m + 1);
    }
  }

  // A timed buff, at any point of its life: the rounds it has passed are counted, each multiple of the
  // interval costs one trigger, and it is over exactly when the triggers it had are used up.
  lemma {:induction false} TimedLife(l: Life, interval: int, k: nat)
    requires interval >= 1 && l.roundCounter >= 0 && 0 < l.triggersLeft < TRIGGERS_LEFT_UNLIMITED
    requires l.roundCounter + k <= interval * (Div(l.roundCounter, interval) + l.triggersLeft)
    ensures Ticks(l, interval, k) ==
            Life(l.roundCounter + k, l.triggersLeft - (Div(l.roundCounter + k, interval) - Div(l.roundCounter, interval)))
    ensures Firings(l, interval, k) == Div(l.roundCounter + k, interval) - Div(l.roundCounter, interval)
    ensures Over(Ticks(l, interval, k)) <==> l.roundCounter + k == interval * (Div(l.roundCounter, interval) + l.triggersLeft)
  {
    hide Div, Due;
    var c, base := l.roundCounter, Div(l.roundCounter, interval);
    var stop := base + l.triggersLeft;
    Below(c + k, interval, stop);
    if k == 0 {
      Below(c, interval, stop);
    } else {
      TimedLife(l, interval, k - 1);
      Below(c + k - 1, interval, stop);
      DivNext(c + k - 1, interval);
    }
  }

  lemma Below(a: int, b: int, q: int)
    requires b >= 1
    ensures a < b * q <==> Div(a, b) < q
  {
    var r := a % b;
    assert a == b * Div(a, b) + r && 0 <= r < b;
    AtLeastOnce(b, q - Div(a, b));
    assert b * (q - Div(a, b)) == b * q - b * Div(a, b);
  }

  // GetDurations
  function GetDurations(roundCounter: int, spec: BuffSpec): (int, int) {
    (spec.triggerCount * spec.roundInterval - roundCounter, spec.triggerCount * spec.roundInterval)
  }

  // A buff that is over stays as it is.
  lemma {:induction false} StaysOver(l: Life, interval: int, j: nat, k: nat)
    requires interval >= 1 && Over(Ticks(l, interval, j))
    ensures Ticks(l, interval, j + k) == Ticks(l, interval, j) && Firings(l, interval, j + k) == Firings(l, interval, j)
  {
    if k > 0 {
      StaysOver(l, interval, j, k - 1);
    }
  }

  // The round counter at which a timed buff ends
  function EndOf(l: Life, interval: int): int
    requires interval >= 1
  {
    interval * (Div(l.roundCounter, interval) + l.triggersLeft)
  }

  // A timed buff from any point of its life, for any number of rounds
  lemma TimedForever(l: Life, interval: int, k: nat)
    requires interval >= 1 && l.roundCounter >= 0 && 0 < l.triggersLeft < TRIGGERS_LEFT_UNLIMITED
    ensures var at := Min(l.roundCounter + k, EndOf(l, interval));
            && Ticks(l, interval, k) == Life(at, l.triggersLeft - (Div(at, interval) - Div(l.roundCounter, interval)))
            && Firings(l, interval, k) == Min(Div(l.roundCounter + k, interval) - Div(l.roundCounter, interval), l.triggersLeft)
            && (Over(Ticks(l, interval, k)) <==> l.roundCounter + k >= EndOf(l, interval))
  {
    hide Div, Due, Ticks, Firings;
    var c := l.roundCounter;
    var stop := Div(c, interval) + l.triggersLeft;
    Below(c, interval, stop);
    Below(c + k, interval, stop);
    Multiple(interval, stop);
    if c + k <= EndOf(l, interval) {
      TimedLife(l, interval, k);
    } else {
      var j := EndOf(l, interval) - c;
      TimedLife(l, interval, j);
      StaysOver(l, interval, j, k - j);
    }
  }

  lemma Multiple(b: int, q: int)
    requires b >= 1
    ensures Div(b * q, b) == q
  {
    DivUnique(b * q, b, q, 0);
  }

  // A new timed buff triggers every RoundInterval rounds, TriggerCount times and no more, and is over from
  // the round on in which GetDurations reaches 0.
  lemma NewTimedBuff(spec: BuffSpec, k: nat)
    requires spec.roundInterval >= 1 && 1 <= spec.triggerCount < TRIGGERS_LEFT_UNLIMITED
    ensures var life, n := Life(0, spec.triggerCount), spec.roundInterval;
            && Firings(life, n, k) == Min(Div(k, n), spec.triggerCount)
            && Ticks(life, n, k).roundCounter == Min(k, spec.triggerCount * n)
            && (Over(Ticks(life, n, k)) <==> k >= spec.triggerCount * n)
            && (Over(Ticks(life, n, k)) <==> GetDurations(Ticks(life, n, k).roundCounter, spec).0 == 0)
            && (k <= spec.triggerCount * n ==> GetDurations(Ticks(life, n, k).roundCounter, spec) == (spec.triggerCount * n - k, spec.triggerCount * n))
  {
    hide Div, Due, Ticks, Firings;
    DivZero(spec.roundInterval);
    Commute(spec.roundInterval, spec.triggerCount);
    TimedForever(Life(0, spec.triggerCount), spec.roundInterval, k);
  }

  // A buff added without being permanent ends at all exactly if its spec's count is below the mark that
  // stands for no limit.
  lemma EndsBelowTheMark(spec: BuffSpec)
    requires spec.roundInterval >= 1 && spec.triggerCount >= 1
    ensures (exists k: nat :: Over(Ticks(Life(0, spec.triggerCount), spec.roundInterval, k))) <==> spec.triggerCount < TRIGGERS_LEFT_UNLIMITED
  {
    var l, n := Life(0, spec.triggerCount), spec.roundInterval;
    if spec.triggerCount < TRIGGERS_LEFT_UNLIMITED {
      var k := spec.triggerCount * n;
      NewTimedBuff(spec, k);
      assert Over(Ticks(l, n, k));
    } else {
      forall k: nat
        ensures !Over(Ticks(l, n, k))
      {
        NeverBelowTheMark(l, n, k);
      }
    }
  }

  lemma {:induction false} NeverBelowTheMark(l: Life, interval: int, k: nat)
    requires interval >= 1 && l.triggersLeft >= TRIGGERS_LEFT_UNLIMITED
    ensures Ticks(l, interval, k).triggersLeft >= TRIGGERS_LEFT_UNLIMITED
  {
    if k > 0 {
      NeverBelowTheMark(l, interval, k - 1);
    }
  }

  // Adding a buff again gives it all its triggers back but keeps its round counter, so it outlives
  // what GetDurations reports: that is below 0 at the end by the whole intervals passed before.
  lemma RefreshedBuff(spec: BuffSpec, c: nat, k: nat)
    requires spec.roundInterval >= 1 && 1 <= spec.triggerCount < TRIGGERS_LEFT_UNLIMITED
    ensures var l := Ticks(Life(c, spec.triggerCount), spec.roundInterval, k);
            var end := EndOf(Life(c, spec.triggerCount), spec.roundInterval);
            && l.roundCounter == Min(c + k, end)
            && (Over(l) <==> c + k >= end)
            && (Over(l) <==> GetDurations(l.roundCounter, spec).0 == -spec.roundInterval * Div(c, spec.roundInterval))
  {
    hide Div, Due, Ticks, Firings;
    var n := spec.roundInterval;
    TimedForever(Life(c, spec.triggerCount), n, k);
    Distribute(n, Div(c, n), spec.triggerCount);
  }

  // So GetDurations tells the end of a buff added again exactly if less than an interval had passed.
  lemma RefreshedOnTime(spec: BuffSpec, c: nat)
    requires spec.roundInterval >= 1 && 1 <= spec.triggerCount < TRIGGERS_LEFT_UNLIMITED
    ensures (forall k: nat :: var l := Ticks(Life(c, spec.triggerCount), spec.roundInterval, k);
                              Over(l) <==> GetDurations(l.roundCounter, spec).0 == 0)
        <==> c < spec.roundInterval
  {
    hide Div, Due, Ticks, Over, GetDurations;
    var n := spec.roundInterval;
    Below(c, n, 0);
    Below(c, n, 1);
    AtLeastOnce(n, Div(c, n));
    Distribute(n, Div(c, n), 0);
    forall k: nat
      ensures Over(Ticks(Life(c, spec.triggerCount), n, k)) <==>
        GetDurations(Ticks(Life(c, spec.triggerCount), n, k).roundCounter, spec).0 == -n * Div(c, n)
    {
      RefreshedBuff(spec, c, k);
    }
    if c >= n {
      var k: nat := Abs(EndOf(Life(c, spec.triggerCount), n));
      RefreshedBuff(spec, c, k);
      assert Over(Ticks(Life(c, spec.triggerCount), n, k));
    }
  }

  // A buff without limit never ends; it triggers once every RoundInterval rounds.
  lemma {:induction false} UnlimitedBuff(interval: int, k: nat)
    requires interval >= 1
    ensures Ticks(Life(0, TRIGGERS_LEFT_UNLIMITED), interval, k) == Life(k % interval, TRIGGERS_LEFT_UNLIMITED)
    ensures Firings(Life(0, TRIGGERS_LEFT_UNLIMITED), interval, k) == Div(k, interval)
  {
    hide Div, Due;
    DivUnique(0, interval, 0, 0);
    if k == 0 {
      DivZero(interval);
    } else {
      UnlimitedBuff(interval, k - 1);
      DivNext(k - 1, interval);
      NextRemainder(k - 1, interval);
    }
  }

  lemma Distribute(a: int, b: int, c: int)
    ensures a * (b + c) == a * b + c * a
    ensures -a * b == -(a * b)
  {
  }

  lemma Commute(a: int, b: int)
    ensures a * b == b * a
  {
  }

  lemma DivZero(b: int)
    requires b >= 1
    ensures Div(0, b) == 0
  {
  }

  lemma NextRemainder(a: nat, b: int)
    requires b >= 1
    ensures Due(a % b + 1, b) == Due(a + 1, b)
    ensures (a + 1) % b == if Due(a + 1, b) then 0 else a % b + 1
  {
    var q, r := a / b, a % b;
    assert a == b * q + r && 0 <= r < b;
    if r + 1 < b {
      DivUnique(a + 1, b, q, r + 1);
      DivUnique(r + 1, b, 0, r + 1);
    } else {
      DivUnique(a + 1, b, q + 1, 0);
      DivUnique(r + 1, b, 1, 0);
    }
  }

  // ---------- the lookups ----------

  // Where each buff id is in the list
  function IdIndex(ids: seq<int>): map<int, int> {
    if ids == [] then map[] else var n := |ids| - 1; IdIndex(ids[..n])[ids[n] := n]
  }

  function AddFlags(m: map<string, seq<int>>, flags: seq<string>, idx: int): map<string, seq<int>> {
    if flags == [] then m
    else
      var n := |flags| - 1;
      var m' := AddFlags(m, flags[..n], idx);
      m'[flags[n] := (if flags[n] in m' then m'[flags[n]] else []) + [idx]]
  }

  // Where the buffs with each flag are in the list
  function FlagIndex(specs: map<int, BuffSpec>, ids: seq<int>): map<string, seq<int>> {
    if ids == [] then map[]
    else var n := |ids| - 1; AddFlags(FlagIndex(specs, ids[..n]), FlagsOf(specs, ids[n]), n)
  }

  lemma {:induction false} IdIndexAt(ids: seq<int>)
    ensures forall id :: id in IdIndex(ids) <==> id in ids
    ensures forall id :: id in ids ==> 0 <= IdIndex(ids)[id] < |ids| && ids[IdIndex(ids)[id]] == id
    ensures |IdIndex(ids)| <= |ids| && (|IdIndex(ids)| == |ids| <==> NoDuplicates(ids))
  {
    hide NoDuplicates;
    if ids == [] {
      NothingTwice();
    } else {
      var n := |ids| - 1;
      IdIndexAt(ids[..n]);
      NoDuplicatesLast(ids);
      OneMore(IdIndex(ids[..n]), ids[n], n);
      assert ids == ids[..n] + [ids[n]];
    }
  }

  lemma NothingTwice()
    ensures NoDuplicates<int>([])
  {
  }

  lemma OneMore(m: map<int, int>, k: int, v: int)
    ensures |m[k := v]| == |m| + if k in m then 0 else 1
  {
    assert m[k := v].Keys == m.Keys + {k};
    assert |m| == |m.Keys| && |m[k := v]| == |m[k := v].Keys|;
  }

  predicate Listed(m: map<string, seq<int>>, f: string, i: int) {
    f in m && i in m[f]
  }

  lemma {:induction false} AddFlagsAt(m: map<string, seq<int>>, flags: seq<string>, idx: int)
    ensures forall f :: f in AddFlags(m, flags, idx) <==> f in m || f in flags
    ensures forall f, i :: Listed(AddFlags(m, flags, idx), f, i) <==> Listed(m, f, i) || (f in flags && i == idx)
  {
    if flags != [] {
      var n := |flags| - 1;
      AddFlagsAt(m, flags[..n], idx);
      assert flags == flags[..n] + [flags[n]];
      var before, after := AddFlags(m, flags[..n], idx), AddFlags(m, flags, idx);
      assert forall f, i :: Listed(after, f, i) <==> Listed(before, f, i) || (f == flags[n] && i == idx);
    }
  }

  // Flag f is listed with exactly the positions of the buffs that carry it, and only flags carried
  // are listed.
  lemma {:induction false} FlagIndexAt(specs: map<int, BuffSpec>, ids: seq<int>)
    ensures forall f, i :: Listed(FlagIndex(specs, ids), f, i) <==> 0 <= i < |ids| && f in FlagsOf(specs, ids[i])
    ensures forall f :: f in FlagIndex(specs, ids) <==> exists i :: 0 <= i < |ids| && f in FlagsOf(specs, ids[i])
  {
    hide FlagsOf;
    if ids != [] {
      var n := |ids| - 1;
      FlagIndexAt(specs, ids[..n]);
      AddFlagsAt(FlagIndex(specs, ids[..n]), FlagsOf(specs, ids[n]), n);
      forall f, i
        ensures Listed(FlagIndex(specs, ids), f, i) <==> 0 <= i < |ids| && f in FlagsOf(specs, ids[i])
      {
        if 0 <= i < n {
          assert f in FlagsOf(specs, ids[i]) <==> f in FlagsOf(specs, ids[..n][i]);
        }
      }
      forall f
        ensures f in FlagIndex(specs, ids) <==> exists i :: 0 <= i < |ids| && f in FlagsOf(specs, ids[i])
      {
        if i :| 0 <= i < |ids| && f in FlagsOf(specs, ids[i]) {
          assert i < n ==> f in FlagsOf(specs, ids[..n][i]);
        }
      }
    }
  }

  // ---------- the list ----------

  class Buff {
    const buffId: int
    var permaBuff: bool
    var roundCounter: int
    var triggersLeft: int

    constructor (buffId: int, permaBuff: bool, triggersLeft: int)
      ensures this.buffId == buffId && this.permaBuff == permaBuff
      ensures roundCounter == 0 && this.triggersLeft == triggersLeft
    {
      this.buffId := buffId;
      this.permaBuff, this.roundCounter, this.triggersLeft := permaBuff, 0, triggersLeft;
    }

    predicate Expired()
      reads this`triggersLeft
    {
      triggersLeft <= 0
    }

    function State(): Life
      reads this`roundCounter, this`triggersLeft
    {
      Life(roundCounter, triggersLeft)
    }
  }

  function IdsOf(l: seq<Buff>): seq<int> {
    seq(|l|, i requires 0 <= i < |l| => l[i].buffId)
  }

  // The elements of l that are in who, in order
  ghost function Filter<T>(l: seq<T>, who: set<T>): seq<T> {
    if l == [] then [] else (if l[0] in who then [l[0]] else []) + Filter(l[1..], who)
  }

  function Reverse<T>(l: seq<T>): seq<T> {
    if l == [] then [] else Reverse(l[1..]) + [l[0]]
  }

  lemma {:induction false} FilterConcat<T>(l: seq<T>, m: seq<T>, who: set<T>)
    ensures Filter(l + m, who) == Filter(l, who) + Filter(m, who)
  {
    if l == [] {
      assert l + m == m;
    } else {
      FilterConcat(l[1..], m, who);
      var first := if l[0] in who then [l[0]] else [];
      assert (l + m)[0] == l[0] && (l + m)[1..] == l[1..] + m;
      assert first + (Filter(l[1..], who) + Filter(m, who)) == first + Filter(l[1..], who) + Filter(m, who);
    }
  }

  // Two elements kept stay in the order they had.
  lemma FilterKeepsOrder<T>(l: seq<T>, who: set<T>, i: nat, j: nat)
    requires i < j < |l| && l[i] in who && l[j] in who
    ensures exists a, b :: 0 <= a < b < |Filter(l, who)| && Filter(l, who)[a] == l[i] && Filter(l, who)[b] == l[j]
  {
    hide Filter;
    var before, after := Filter(l[..j], who), Filter(l[j..], who);
    FilterConcat(l[..j], l[j..], who);
    assert l[..j] + l[j..] == l;
    FilterElements(l[..j], who);
    FilterElements(l[j..], who);
    assert l[..j][i] == l[i] && l[j..][0] == l[j];
    var a :| 0 <= a < |before| && before[a] == l[i];
    var b :| 0 <= b < |after| && after[b] == l[j];
    var f := before + after;
    assert Filter(l, who) == f;
    assert 0 <= a < |before| + b < |f| && f[a] == l[i] && f[|before| + b] == l[j];
  }

  lemma {:induction false} ReverseAt<T>(l: seq<T>, i: nat)
    requires i < |l|
    ensures |Reverse(l)| == |l| && Reverse(l)[i] == l[|l| - 1 - i]
  {
    if |l| > 1 {
      ReverseAt(l[1..], if i < |l| - 1 then i else 0);
    }
  }

  lemma FilterNext<T>(l: seq<T>, i: nat, who: set<T>)
    requires i < |l|
    ensures Filter(l[i..], who) == (if l[i] in who then [l[i]] else []) + Filter(l[i + 1..], who)
    ensures Reverse(Filter(l[i..], who)) == Reverse(Filter(l[i + 1..], who)) + if l[i] in who then [l[i]] else []
    ensures l[..i + 1] == l[..i] + [l[i]]
  {
    var f := Filter(l[i + 1..], who);
    assert l[i..][1..] == l[i + 1..];
    if l[i] in who {
      assert ([l[i]] + f)[1..] == f;
      assert Reverse([l[i]] + f) == Reverse(f) + [l[i]];
    } else {
      assert [] + f == f;
    }
  }

  // Filtering in place from the end, one element at a time
  lemma FilterStep<T>(l: seq<T>, i: nat, who: set<T>)
    requires i < |l|
    ensures var m := l[..i + 1] + Filter(l[i + 1..], who);
            m[i] == l[i] && l[..i] + Filter(l[i..], who) == if l[i] in who then m else m[..i] + m[i + 1..]
  {
    FilterNext(l, i, who);
    var m := l[..i + 1] + Filter(l[i + 1..], who);
    assert m[..i] == l[..i] && m[i + 1..] == Filter(l[i + 1..], who);
    assert m == m[..i] + [l[i]] + m[i + 1..];
  }

  lemma {:induction false} FilterElements<T>(l: seq<T>, who: set<T>)
    ensures forall b :: b in Filter(l, who) ==> b in l && b in who
    ensures forall b :: b in l && b in who ==> b in Filter(l, who)
    ensures (forall b :: b in l ==> b in who) ==> Filter(l, who) == l
    ensures (forall b :: b in l ==> b !in who) ==> Filter(l, who) == []
  {
    if l != [] {
      FilterElements(l[1..], who);
      assert l == [l[0]] + l[1..];
    }
  }

  lemma {:induction false} FilterDistinct<T>(l: seq<T>, who: set<T>)
    requires NoDuplicates(l)
    ensures NoDuplicates(Filter(l, who))
  {
    if l != [] {
      FilterElements(l[1..], who);
      assert forall i :: 0 <= i < |l| - 1 ==> l[1..][i] == l[i + 1];
      FilterDistinct(l[1..], who);
      assert l[0] !in l[1..];
    }
  }

  lemma FilterIdsIn(l: seq<Buff>, who: set<Buff>, id: int)
    requires id in IdsOf(Filter<Buff>(l, who))
    ensures id in IdsOf(l)
  {
    var f: seq<Buff> := Filter<Buff>(l, who);
    FilterElements<Buff>(l, who);
    var j :| 0 <= j < |f| && IdsOf(f)[j] == id;
    assert f[j] in f && f[j] in l;
    var i :| 0 <= i < |l| && l[i] == f[j];
    assert IdsOf(l)[i] == id;
  }

  lemma {:induction false} FilterIdsDistinct(l: seq<Buff>, who: set<Buff>)
    requires NoDuplicates(IdsOf(l))
    ensures NoDuplicates(IdsOf(Filter<Buff>(l, who)))
  {
    hide NoDuplicates;
    if l == [] {
      assert IdsOf(Filter<Buff>(l, who)) == IdsOf(l);
    } else {
      var f: seq<Buff> := Filter<Buff>(l[1..], who);
      assert IdsOf(l)[1..] == IdsOf(l[1..]);
      NoDuplicatesFirst(IdsOf(l));
      FilterIdsDistinct(l[1..], who);
      if l[0] in who {
        var ids := IdsOf(Filter<Buff>(l, who));
        assert Filter<Buff>(l, who) == [l[0]] + f;
        assert ids[1..] == IdsOf(f) && ids[0] == l[0].buffId;
        if ids[0] in IdsOf(f) {
          FilterIdsIn(l[1..], who, ids[0]);
        }
        NoDuplicatesFirst(ids);
      } else {
        assert Filter<Buff>(l, who) == f;
      }
    }
  }

  class Buffs {
    const specs: map<int, BuffSpec>
    var list: seq<Buff>
    var buffFlags: map<string, seq<int>>
    var buffIds: map<int, int>

    constructor (specs: map<int, BuffSpec>)
      requires Loaded(specs)
      ensures this.specs == specs && list == [] && Valid() && Agrees()
    {
      this.specs := specs;
      list, buffFlags, buffIds := [], map[], map[];
    }

    // The list holds different objects, and the specs are as loaded.
    ghost predicate Valid()
      reads this`list
    {
      NoDuplicates(list) && Loaded(specs)
    }

    // No id occurs twice, and the lookups say where the buffs are.
    ghost predicate Agrees()
      reads this
    {
      && NoDuplicates(IdsOf(list))
      && buffIds == IdIndex(IdsOf(list))
      && buffFlags == FlagIndex(specs, IdsOf(list))
    }

    // GetBuffSpec(buffId).Flags
    function SpecOf(buffId: int): BuffSpec
      requires Known(specs, buffId)
    {
      specs[SpecKey(buffId)]
    }

    lemma AgreesAt()
      requires Agrees()
      ensures forall id :: id in buffIds <==> exists i :: 0 <= i < |list| && list[i].buffId == id
      ensures forall i :: 0 <= i < |list| ==> list[i].buffId in buffIds && buffIds[list[i].buffId] == i
      ensures forall f :: f in buffFlags <==> exists i :: 0 <= i < |list| && f in FlagsOf(specs, list[i].buffId)
      ensures |list| == |buffIds|
    {
      var ids := IdsOf(list);
      IdIndexAt(ids);
      FlagIndexAt(specs, ids);
      forall i | 0 <= i < |list|
        ensures list[i].buffId in buffIds && buffIds[list[i].buffId] == i
      {
        assert ids[i] in ids;
      }
      forall id
        ensures id in buffIds <==> exists i :: 0 <= i < |list| && list[i].buffId == id
      {
        if id in buffIds {
          assert ids[buffIds[id]] == list[buffIds[id]].buffId;
        }
      }
      forall f
        ensures f in buffFlags <==> exists i :: 0 <= i < |list| && f in FlagsOf(specs, list[i].buffId)
      {
        if i :| 0 <= i < |list| && f in FlagsOf(specs, list[i].buffId) {
          assert f in FlagsOf(specs, ids[i]);
        }
        if i :| 0 <= i < |ids| && f in FlagsOf(specs, ids[i]) {
          assert f in FlagsOf(specs, list[i].buffId);
        }
      }
    }

    // The lookups are rebuilt when they differ in size from the list, or on demand.
    method Validate(forceRebuild: bool)
      modifies this`buffIds, this`buffFlags
      ensures if |list| != |old(buffIds)| || forceRebuild
              then buffIds == IdIndex(IdsOf(list)) && buffFlags == FlagIndex(specs, IdsOf(list))
              else buffIds == old(buffIds) && buffFlags == old(buffFlags)
    {
      if |list| != |buffIds| || forceRebuild {
        buffIds, buffFlags := map[], map[];
        for idx := 0 to |list|
          invariant buffIds == IdIndex(IdsOf(list)[..idx]) && buffFlags == FlagIndex(specs, IdsOf(list)[..idx])
        {
          var b := list[idx];
          assert IdsOf(list)[..idx + 1][..idx] == IdsOf(list)[..idx];
          buffIds := buffIds[b.buffId := idx];
          if !Known(specs, b.buffId) {
            continue;
          }
          AddToFlags(SpecOf(b.buffId).flags, idx);
        }
        assert IdsOf(list)[..|list|] == IdsOf(list);
      }
    }

    // The loop over the flags of a spec, in Validate and AddBuff
    method AddToFlags(flags: seq<string>, idx: int)
      modifies this`buffFlags
      ensures buffFlags == AddFlags(old(buffFlags), flags, idx)
    {
      for k := 0 to |flags|
        invariant buffFlags == AddFlags(old(buffFlags), flags[..k], idx)
      {
        assert flags[..k + 1][..k] == flags[..k];
        if flags[k] !in buffFlags {
          buffFlags := buffFlags[flags[k] := []];
        }
        buffFlags := buffFlags[flags[k] := buffFlags[flags[k]] + [idx]];
      }
      assert flags[..|flags|] == flags;
    }

    method RemoveBuff(buffId: int) returns (found: bool)
      requires Valid() && Agrees()
      modifies list`triggersLeft
      ensures found <==> buffId in IdsOf(list)
      ensures forall i :: 0 <= i < |list| ==>
        list[i].triggersLeft == if list[i].buffId == buffId then 0 else old(list[i].triggersLeft)
    {
      AgreesAt();
      if buffId in buffIds {
        list[buffIds[buffId]].triggersLeft := 0;
        assert IdsOf(list)[buffIds[buffId]] == buffId;
        return true;
      }
      assert forall i :: 0 <= i < |list| ==> IdsOf(list)[i] == list[i].buffId;
      return false;
    }

    // What a fresh buff starts with
    function StartTriggers(buffId: int, isPermanent: bool): int
      requires Known(specs, buffId)
    {
      if isPermanent then TRIGGERS_LEFT_UNLIMITED else SpecOf(buffId).triggerCount
    }

    // A buff added as permanent never ends, whatever its round counter; a fresh one that is not ends after
    // its spec's TriggerCount * RoundInterval rounds.
    lemma AddedLasts(buffId: int, isPermanent: bool, c: nat, k: nat)
      requires Loaded(specs) && Abs(buffId) in specs
      ensures var spec := specs[Abs(buffId)];
              var l := Ticks(Life(c, StartTriggers(buffId, isPermanent)), spec.roundInterval, k);
              && (isPermanent ==> l.triggersLeft > 0)
              && (!isPermanent && c == 0 && spec.triggerCount < TRIGGERS_LEFT_UNLIMITED ==>
                    (l.triggersLeft <= 0 <==> k >= spec.triggerCount * spec.roundInterval))
    {
      hide Ticks, Firings, Div, Due;
      var spec := specs[Abs(buffId)];
      if isPermanent {
        NeverBelowTheMark(Life(c, StartTriggers(buffId, true)), spec.roundInterval, k);
      } else if c == 0 && spec.triggerCount < TRIGGERS_LEFT_UNLIMITED {
        NewTimedBuff(spec, k);
      }
    }

    method AddBuff(buffId: int, isPermanent: bool) returns (added: bool)
      requires Valid() && Agrees()
      modifies this, list`triggersLeft, list`permaBuff
      ensures Valid() && (added <==> Known(specs, buffId))
      ensures !added || buffId in old(IdsOf(list)) ==> list == old(list)
      ensures forall b :: b in old(list) ==>
        if added && b.buffId == buffId then b.triggersLeft == StartTriggers(buffId, isPermanent) && b.permaBuff == isPermanent
        else b.triggersLeft == old(b.triggersLeft) && b.permaBuff == old(b.permaBuff)
      ensures added && buffId !in old(IdsOf(list)) ==>
        && |list| == |old(list)| + 1 && list[..|old(list)|] == old(list) && fresh(list[|old(list)|])
        && list[|old(list)|].buffId == SpecKey(buffId) && list[|old(list)|].permaBuff == isPermanent
        && list[|old(list)|].State() == Life(0, StartTriggers(buffId, isPermanent))
      ensures Agrees() <==> old(AddKeepsLookups(buffId))
      ensures |buffIds| == |list|   // so Validate(false) never repairs it
    {
      hide IdIndex, FlagIndex, AddFlags, Agrees, NoDuplicates;
      PlaceOf(buffId);
      if !Known(specs, buffId) {
        return false;
      }
      var triggersLeft, permaBuff := SpecOf(buffId).triggerCount, false;
      if isPermanent {
        triggersLeft, permaBuff := TRIGGERS_LEFT_UNLIMITED, true;
      }
      if buffId in buffIds {
        var b := list[buffIds[buffId]];
        b.triggersLeft, b.permaBuff := triggersLeft, permaBuff;
        return true;
      }
      var newBuff := new Buff(SpecOf(buffId).buffId, permaBuff, triggersLeft);
      Append(buffId, newBuff);
      return true;
    }

    // The end of AddBuff: the new buff enters the list and the lookups.
    method Append(buffId: int, newBuff: Buff)
      requires Valid() && Agrees() && Known(specs, buffId) && buffId !in IdsOf(list)
      requires newBuff !in list && newBuff.buffId == SpecKey(buffId)
      modifies this
      ensures Valid() && list == old(list) + [newBuff] && |buffIds| == |list|
      ensures Agrees() <==> buffId >= 0
    {
      hide IdIndex, FlagIndex, AddFlags, NoDuplicates;
      PlaceOf(buffId);
      ghost var ids := IdsOf(list);
      NoDuplicatesLast(list + [newBuff]);
      assert (list + [newBuff])[..|list|] == list;
      list := list + [newBuff];
      var listIndex := |list| - 1;
      buffIds := buffIds[buffId := listIndex];
      AddToFlags(SpecOf(buffId).flags, listIndex);
      assert IdsOf(list) == ids + [SpecKey(buffId)];
      AddedLookups(specs, ids, buffId);
    }

    lemma PlaceOf(buffId: int)
      requires Agrees()
      ensures |buffIds| == |list|
      ensures buffId in buffIds <==> buffId in IdsOf(list)
      ensures buffId in buffIds ==> 0 <= buffIds[buffId] < |list| && list[buffIds[buffId]].buffId == buffId
      ensures forall b :: b in list && b.buffId == buffId ==> buffId in buffIds && b == list[buffIds[buffId]]
    {
      hide IdIndex, FlagIndex, NoDuplicates;
      AgreesAt();
      if buffId in IdsOf(list) {
        var i :| 0 <= i < |list| && IdsOf(list)[i] == buffId;
        assert list[i].buffId == buffId;
      }
      if buffId in buffIds {
        assert IdsOf(list)[buffIds[buffId]] == buffId;
      }
    }

    // One round for every buff. The ids passed do not restrict it: the source's test of them only
    // continues its own inner loop.
    method Trigger(buffId: seq<int>) returns (triggeredBuffs: seq<Buff>)
      requires Valid()
      modifies list`roundCounter, list`triggersLeft
      ensures forall b :: b in list ==>
        b.State() == if Known(specs, b.buffId) then Tick(old(b.State()), SpecOf(b.buffId).roundInterval) else old(b.State())
      ensures triggeredBuffs == Filter(list, old(Firing()))
      ensures triggeredBuffs == Filter(list, old(Meant(buffId))) <==> buffId == [] || forall b :: b in old(Firing()) ==> b.buffId in buffId
      ensures (triggeredBuffs == Filter(list, old(Meant(buffId))) && forall b :: b in list ==> b.State() == old(MeantRound(buffId, b)))
          <==> buffId == [] || old(AllNamed(buffId))
    {
      triggeredBuffs := [];
      ghost var firing := Firing();
      MeantIsFiring(buffId);
      MeantByAll(buffId);
      for idx := 0 to |list|
        invariant forall i :: 0 <= i < |list| ==>
          list[i].State() == (if i < idx && Known(specs, list[i].buffId) then Tick(old(list[i].State()), SpecOf(list[i].buffId).roundInterval)
                              else old(list[i].State()))
        invariant triggeredBuffs == Filter(list[..idx], firing)
      {
        var b := list[idx];
        FilterConcat(list[..idx], [b], firing);
        assert list[..idx + 1] == list[..idx] + [b];
        if Known(specs, b.buffId) {
          var buffInfo := SpecOf(b.buffId);
          if b.triggersLeft > 0 {
            b.roundCounter := b.roundCounter + 1;
            if b.roundCounter % buffInfo.roundInterval == 0 {
              triggeredBuffs := triggeredBuffs + [b];
              if b.triggersLeft != TRIGGERS_LEFT_UNLIMITED {
                b.triggersLeft := b.triggersLeft - 1;
              } else {
                b.roundCounter := 0;
              }
            }
          }
        }
      }
      assert list[..|list|] == list;
    }

    // The buffs that the next round triggers
    ghost function Firing(): set<Buff>
      requires Valid()
      reads this`list, list
    {
      set b | b in list && Known(specs, b.buffId) && Fires(b.State(), SpecOf(b.buffId).roundInterval)
    }

    // Those of them that the source's comment says ids restrict the result to
    ghost function Meant(ids: seq<int>): set<Buff>
      requires Valid()
      reads this`list, list
    {
      set b | b in Firing() && (ids == [] || b.buffId in ids)
    }

    // A buff's next round
    ghost function Round(b: Buff): Life
      requires Valid()
      reads this`list, b
    {
      if Known(specs, b.buffId) then Tick(b.State(), SpecOf(b.buffId).roundInterval) else b.State()
    }

    // What the comment says of it: only the buffs named, if any are, live a round.
    ghost function MeantRound(ids: seq<int>, b: Buff): Life
      requires Valid()
      reads this`list, b
    {
      if ids == [] || b.buffId in ids then Round(b) else b.State()
    }

    // Every unexpired buff that has a spec is named.
    ghost predicate AllNamed(ids: seq<int>)
      reads this`list, list
    {
      forall b :: b in list && Known(specs, b.buffId) && !b.Expired() ==> b.buffId in ids
    }

    // A round never leaves an unexpired buff as it was without triggering it.
    lemma MeantByAll(ids: seq<int>)
      requires Valid()
      ensures (Filter<Buff>(list, Firing()) == Filter<Buff>(list, Meant(ids)) && forall b :: b in list ==> Round(b) == MeantRound(ids, b))
          <==> ids == [] || AllNamed(ids)
    {
      MeantIsFiring(ids);
      if ids != [] && !AllNamed(ids) {
        var b :| b in list && Known(specs, b.buffId) && !b.Expired() && b.buffId !in ids;
        assert b in Firing() || Round(b) != MeantRound(ids, b);
      }
    }

    lemma MeantIsFiring(ids: seq<int>)
      requires Valid()
      ensures Filter<Buff>(list, Firing()) == Filter<Buff>(list, Meant(ids)) <==> ids == [] || forall b :: b in Firing() ==> b.buffId in ids
    {
      FilterElements<Buff>(list, Firing());
      FilterElements<Buff>(list, Meant(ids));
      if ids == [] || forall b :: b in Firing() ==> b.buffId in ids {
        assert Meant(ids) == Firing();
      } else {
        var b :| b in Firing() && b.buffId !in ids;
        assert b in Filter<Buff>(list, Firing()) && b !in Filter<Buff>(list, Meant(ids));
      }
    }

    // Expired or without a spec
    ghost function Dead(l: seq<Buff>): set<Buff>
      reads l`triggersLeft
    {
      set b | b in l && (!Known(specs, b.buffId) || b.Expired())
    }

    ghost function Alive(l: seq<Buff>): set<Buff>
      reads l`triggersLeft
    {
      (set b | b in l) - Dead(l)
    }

    method Prune() returns (prunedBuffs: seq<Buff>)
      requires Valid()
      modifies this
      ensures Valid()
      ensures list == Filter<Buff>(old(list), old(Alive(list)))
      ensures prunedBuffs == Reverse(Filter<Buff>(old(list), old(Dead(list))))
      ensures forall b :: b in list <==> b in old(list) && Abs(b.buffId) in specs && old(b.triggersLeft) > 0
      ensures NoDuplicates(old(IdsOf(list))) && (old(Agrees()) || prunedBuffs != []) ==> Agrees()
    {
      hide Filter, Reverse, Dead, Alive, IdIndex, FlagIndex, NoDuplicates;
      FilteredList(list);
      if |list| == 0 {
        return [];
      }
      prunedBuffs := CutDead();
      if |prunedBuffs| > 0 {
        Validate(true);
      }
    }

    lemma FilteredList(was: seq<Buff>)
      requires NoDuplicates(was)
      ensures NoDuplicates(Filter<Buff>(was, Alive(was)))
      ensures forall b: Buff :: b in Filter<Buff>(was, Alive(was)) <==> b in was && Abs(b.buffId) in specs && b.triggersLeft > 0
      ensures NoDuplicates(IdsOf(was)) ==> NoDuplicates(IdsOf(Filter<Buff>(was, Alive(was))))
      ensures was == [] ==> Filter<Buff>(was, Alive(was)) == [] == Reverse(Filter<Buff>(was, Dead(was)))
    {
      FilterElements<Buff>(was, Alive(was));
      FilterDistinct<Buff>(was, Alive(was));
      if NoDuplicates(IdsOf(was)) {
        FilterIdsDistinct(was, Alive(was));
      }
    }

    // The loop of Prune
    method CutDead() returns (prunedBuffs: seq<Buff>)
      requires Valid()
      modifies this`list
      ensures list == Filter<Buff>(old(list), old(Alive(list)))
      ensures prunedBuffs == Reverse(Filter<Buff>(old(list), old(Dead(list))))
      ensures prunedBuffs == [] ==> list == old(list)
      ensures forall b :: b in list ==> b in old(list)
    {
      hide Filter, NoDuplicates;
      ghost var was, dead, alive := list, Dead(list), Alive(list);
      prunedBuffs := [];
      FilterElements<Buff>([], alive);
      FilterElements<Buff>([], dead);
      assert was[|was|..] == [] && was[..|was|] == was;
      for i := |list| downto 0
        invariant i <= |list| && list == was[..i] + Filter<Buff>(was[i..], alive)
        invariant prunedBuffs == Reverse(Filter<Buff>(was[i..], dead))
        invariant prunedBuffs == [] ==> list == was
      {
        var b := list[i];
        FilterStep<Buff>(was, i, alive);
        FilterNext<Buff>(was, i, dead);
        var prune := false;
        if !Known(specs, b.buffId) {
          prune := true;
        } else if b.Expired() {
          prune := true;
        }
        if prune {
          prunedBuffs := prunedBuffs + [b];
          list := list[..i] + list[i + 1..];
        }
      }
      assert was[0..] == was;
      FilterElements<Buff>(was, alive);
    }

    // A buff with this id has a flag that answers to action.
    predicate Flagged(buffId: int, action: string) {
      |FlagsOf(specs, buffId)| > 0 && (action == ALL || action in FlagsOf(specs, buffId))
    }

    // An unexpired buff carries the flag.
    predicate Carries(b: Buff, action: string)
      reads b`triggersLeft
    {
      !b.Expired() && Flagged(b.buffId, action)
    }

    // The inner loop of HasFlag
    method ScanFlags(b: Buff, action: string) returns (hit: bool)
      requires Known(specs, b.buffId)
      ensures hit <==> Carries(b, action)
    {
      var flags := SpecOf(b.buffId).flags;
      for k := 0 to |flags|
        invariant k > 0 && Carries(b, action) ==> action != ALL && action !in flags[..k]
      {
        if b.Expired() {
          continue;
        }
        if flags[k] == action || action == ALL {
          return true;
        }
      }
      assert flags[..|flags|] == flags;
      return false;
    }

    // Whether the first n steps of HasFlag's loop look at buff i. Once buff z is cut out of the list the
    // later ones move up below the loop's index, and the last slot still holds the last buff.
    predicate LookedAt(i: int, z: int, n: int, size: int) {
      if z == -1 then 0 <= i < n else 0 <= i < z || z + 2 <= i <= n || (z + 1 == i == size - 1 && n == size)
    }

    // Buff i carried the flag when the call began.
    ghost predicate Hit(was: seq<Buff>, left: seq<int>, action: string, i: int) {
      0 <= i < |was| == |left| && left[i] > 0 && Flagged(was[i].buffId, action)
    }

    // HasFlag after n steps: z is the position of the buff cut out, or -1.
    ghost predicate Swept(was: seq<Buff>, left: seq<int>, action: string, z: int, n: int, backing: seq<Buff>)
      reads this`list, was`triggersLeft
    {
      && |left| == |was| && 0 <= n <= |was|
      && (z == -1 ==> list == was && backing == was)
      && (z != -1 ==>
            && 0 <= z < n && Hit(was, left, action, z) && was[z].buffId == 0
            && list == was[..z] + was[z + 1..] && backing == list + [was[|was| - 1]])
      && (forall i :: 0 <= i < |was| ==>
            was[i].triggersLeft == if LookedAt(i, z, n, |was|) && Hit(was, left, action, i) then 0 else left[i])
      && (forall i :: LookedAt(i, z, n, |was|) && Hit(was, left, action, i) ==> was[i].buffId != 0)
    }

    // Which buff a step looks at
    function LooksAt(z: int, n: int, size: int): int {
      if z == -1 then n else if n < size - 1 then n + 1 else size - 1
    }

    lemma StepLooksAt(was: seq<Buff>, left: seq<int>, action: string, z: int, n: int, backing: seq<Buff>)
      requires Swept(was, left, action, z, n, backing) && n < |was|
      ensures |backing| == |was| && backing[n] == was[LooksAt(z, n, |was|)]
      ensures forall i :: 0 <= i < |was| ==>
        (LookedAt(i, z, n + 1, |was|) <==> LookedAt(i, z, n, |was|) || (i == LooksAt(z, n, |was|) && i != z))
      ensures z != -1 && LooksAt(z, n, |was|) == z ==> false
    {
    }

    // A step at a buff that does not carry the flag, or no longer.
    lemma MissStep(was: seq<Buff>, left: seq<int>, action: string, z: int, n: int, backing: seq<Buff>)
      requires Swept(was, left, action, z, n, backing) && n < |was|
      requires !Carries(was[LooksAt(z, n, |was|)], action)
      ensures Swept(was, left, action, z, n + 1, backing)
    {
      hide Flagged;
      StepLooksAt(was, left, action, z, n, backing);
    }

    lemma HitStep(was: seq<Buff>, left: seq<int>, action: string, z: int, n: int, backing: seq<Buff>)
      requires Swept(was, left, action, z, n, backing) && n < |was|
      requires Carries(was[LooksAt(z, n, |was|)], action)
      ensures Hit(was, left, action, LooksAt(z, n, |was|))
    {
      hide Flagged;
      StepLooksAt(was, left, action, z, n, backing);
    }

    // The step at buff 0 cuts it out.
    method CutZero(ghost was: seq<Buff>, ghost left: seq<int>, action: string, index: int, backing0: seq<Buff>) returns (backing: seq<Buff>)
      requires Swept(was, left, action, -1, index, backing0) && index < |was|
      requires Hit(was, left, action, index) && was[index].buffId == 0
      modifies this`list
      ensures Swept(was, left, action, index, index + 1, backing) && |backing| == |was|
    {
      hide Flagged;
      list := list[..index] + list[index + 1..];
      backing := list + backing0[|list|..];
    }

    // The step at any other buff expires it and writes it back.
    method ExpireAt(ghost was: seq<Buff>, ghost left: seq<int>, action: string, ghost z: int, index: int, backing: seq<Buff>) returns (crashed: bool)
      requires NoDuplicates(was) && Swept(was, left, action, z, index, backing) && index < |was|
      requires Hit(was, left, action, LooksAt(z, index, |was|)) && backing[index].buffId != 0
      modifies this`list, was`triggersLeft
      ensures Swept(was, left, action, z, index + 1, backing)
      ensures crashed <==> z != -1 && index == |was| - 1
    {
      hide Flagged;
      StepLooksAt(was, left, action, z, index, backing);
      var b := backing[index];
      b.triggersLeft := 0;
      if index >= |list| {
        return true;
      }
      assert list[index] == b;
      list := list[index := b];
      return false;
    }

    // Where was has an unexpired buff 0 that carries the flag; -1 if it has none
    ghost function ZeroHit(was: seq<Buff>, left: seq<int>, action: string): (z: int)
      ensures z != -1 ==> Hit(was, left, action, z) && was[z].buffId == 0
      ensures z == -1 ==> forall i :: Hit(was, left, action, i) ==> was[i].buffId != 0
    {
      if z :| Hit(was, left, action, z) && was[z].buffId == 0 then z else -1
    }

    function WithoutAt(was: seq<Buff>, z: int): seq<Buff> {
      if 0 <= z < |was| then was[..z] + was[z + 1..] else was
    }

    // What HasFlag does. When told to expire and no unexpired buff 0 carries the flag, exactly the buffs
    // that carry it expire. When one does, the list loses it and the buff after it is passed over; if
    // that is the last and carries the flag, it expires and the write to the shortened list panics.
    ghost predicate FlagOutcome(was: seq<Buff>, left: seq<int>, action: string, expire: bool, found: bool, crashed: bool)
      requires |left| == |was|
      reads this`list, was`triggersLeft
    {
      var z, size := ZeroHit(was, left, action), |was|;
      && (found <==> exists i :: Hit(was, left, action, i))
      && (crashed <==> expire && 0 <= z == size - 2 && Hit(was, left, action, size - 1))
      && list == (if expire then WithoutAt(was, z) else was)
      && forall i :: 0 <= i < size ==>
           was[i].triggersLeft ==
           if expire && Hit(was, left, action, i) && (z == -1 || (i != z && (i != z + 1 || z == size - 2))) then 0 else left[i]
    }

    method HasFlag(action: string, expire: bool) returns (found: bool, crashed: bool)
      requires Valid() && Agrees()
      requires forall b :: b in list ==> Known(specs, b.buffId)
      modifies this`list, list`triggersLeft
      ensures FlagOutcome(old(list), old(Lefts()), action, expire, found, crashed)
      ensures found <==> exists b, f :: b in old(list) && old(b.triggersLeft) > 0 && f in FlagsOf(specs, b.buffId) && (action == "" || f == action)
      ensures Agrees() <==> !expire || ZeroHit(old(list), old(Lefts()), action) == -1
    {
      hide Flagged, Agrees, FlagOutcome;
      AgreesAt();
      NoneWithoutFlag(action);
      if action != ALL {
        if action !in buffFlags {
          FlagMeans(list, Lefts(), action, expire, false, false);
          return false, false;
        }
      }
      ghost var was, left := list, Lefts();
      found, crashed := Sweep(action, expire, left);
      FlagMeans(was, left, action, expire, found, crashed);
      ListAfter(was, left, action, expire, found, crashed);
    }

    lemma HitMeans(was: seq<Buff>, left: seq<int>, action: string, i: int)
      requires |left| == |was|
      ensures Hit(was, left, action, i) <==>
        0 <= i < |was| && left[i] > 0 && exists f :: f in FlagsOf(specs, was[i].buffId) && (action == "" || f == action)
    {
      if Hit(was, left, action, i) {
        var flags := FlagsOf(specs, was[i].buffId);
        assert if action == "" then flags[0] in flags else action in flags;
      }
    }

    // HasFlag finds an unexpired buff with the flag, or with any flag when asked for ALL; expiring them
    // changes nothing else unless buff 0 is among them.
    lemma FlagMeans(was: seq<Buff>, left: seq<int>, action: string, expire: bool, found: bool, crashed: bool)
      requires |left| == |was| && FlagOutcome(was, left, action, expire, found, crashed)
      ensures found <==> exists i, f ::
        0 <= i < |was| && left[i] > 0 && f in FlagsOf(specs, was[i].buffId) && (action == "" || f == action)
      ensures !expire ==> list == was && forall i :: 0 <= i < |was| ==> was[i].triggersLeft == left[i]
      ensures expire && (forall i, f :: 0 <= i < |was| && left[i] > 0 && f in FlagsOf(specs, was[i].buffId) && (action == "" || f == action) ==>
                           was[i].buffId != 0) ==>
        list == was && forall i :: 0 <= i < |was| ==>
          was[i].triggersLeft == if left[i] > 0 && exists f :: f in FlagsOf(specs, was[i].buffId) && (action == "" || f == action) then 0
                                 else left[i]
    {
      hide Hit;
      forall i
        ensures Hit(was, left, action, i) <==>
          0 <= i < |was| && left[i] > 0 && exists f :: f in FlagsOf(specs, was[i].buffId) && (action == "" || f == action)
      {
        HitMeans(was, left, action, i);
      }
    }

    lemma ListAfter(was: seq<Buff>, left: seq<int>, action: string, expire: bool, found: bool, crashed: bool)
      requires |left| == |was| == |buffIds| && FlagOutcome(was, left, action, expire, found, crashed)
      ensures !expire || ZeroHit(was, left, action) == -1 ==> list == was
      ensures expire && ZeroHit(was, left, action) != -1 ==> |list| == |was| - 1 && !Agrees()
    {
      hide Flagged;
      if Agrees() {
        AgreesAt();
      }
    }

    ghost function Lefts(): (left: seq<int>)
      reads this`list, list
      ensures |left| == |list| && forall i :: 0 <= i < |list| ==> left[i] == list[i].triggersLeft
    {
      var l := list;
      seq(|l|, i requires 0 <= i < |l| reads l => l[i].triggersLeft)
    }

    lemma NoneWithoutFlag(action: string)
      requires Agrees()
      ensures action != ALL && action !in buffFlags ==>
        FlagOutcome(list, Lefts(), action, false, false, false) && FlagOutcome(list, Lefts(), action, true, false, false)
        && ZeroHit(list, Lefts(), action) == -1
    {
      AgreesAt();
      if action != ALL && action !in buffFlags {
        forall i
          ensures !Hit(list, Lefts(), action, i)
        {
        }
      }
    }

    // The loop of HasFlag
    method Sweep(action: string, expire: bool, ghost left: seq<int>)
      returns (found: bool, crashed: bool)
      requires Valid() && NoDuplicates(IdsOf(list)) && left == Lefts()
      requires forall b :: b in list ==> Known(specs, b.buffId)
      modifies this`list, list`triggersLeft
      ensures FlagOutcome(old(list), left, action, expire, found, crashed)
    {
      hide Flagged, FlagOutcome, Hit, LookedAt, Swept, NoDuplicates, IdsOf;
      found, crashed := false, false;
      ghost var was, z := list, -1;
      var backing := list;   // the array the list shares with the range of the loop
      NothingSwept(was, left, action, expire);
      for index := 0 to |backing|
        invariant |backing| == |was| && Progress(was, left, action, expire, found, z, index, backing)
      {
        StepLooksAt(was, left, action, z, index, backing);
        var b := backing[index];
        var scan := ScanFlags(b, action);
        if !scan {
          MissStep(was, left, action, z, index, backing);
          MissProgress(was, left, action, expire, found, z, index, backing);
          continue;
        }
        HitStep(was, left, action, z, index, backing);
        found := true;
        if !expire {
          FoundOutcome(was, left, action, z, index, backing);
          return;
        }
        if b.buffId == 0 {
          ZeroOnce(was, left, action, z, index, backing);
          backing := CutZero(was, left, action, index, backing);
          z := index;
          HitProgress(was, left, action, z, index, backing);
        } else {
          LastAlive(was, left, action, z, index, backing);
          crashed := ExpireAt(was, left, action, z, index, backing);
          if crashed {
            CrashOutcome(was, left, action, z, backing);
            return;
          }
          HitProgress(was, left, action, z, index, backing);
        }
      }
      DoneOutcome(was, left, action, expire, found, z, backing);
    }

    ghost predicate Progress(was: seq<Buff>, left: seq<int>, action: string, expire: bool, found: bool, z: int, n: int, backing: seq<Buff>)
      reads this`list, was`triggersLeft
    {
      && Swept(was, left, action, z, n, backing)
      && (!expire ==> !found && z == -1)
      && (found <==> exists i :: Hit(was, left, action, i) && (LookedAt(i, z, n, |was|) || i == z))
      && (n == |was| && 0 <= z == |was| - 2 ==> !Hit(was, left, action, |was| - 1))
    }

    lemma NothingSwept(was: seq<Buff>, left: seq<int>, action: string, expire: bool)
      requires was == list && left == Lefts()
      ensures Progress(was, left, action, expire, false, -1, 0, list)
    {
    }

    lemma MissProgress(was: seq<Buff>, left: seq<int>, action: string, expire: bool, found: bool, z: int, n: int, backing: seq<Buff>)
      requires Progress(was, left, action, expire, found, z, n, backing) && n < |was|
      requires !Carries(was[LooksAt(z, n, |was|)], action)
      ensures Progress(was, left, action, expire, found, z, n + 1, backing)
    {
      hide Flagged;
      StepLooksAt(was, left, action, z, n, backing);
      MissStep(was, left, action, z, n, backing);
    }

    lemma HitProgress(was: seq<Buff>, left: seq<int>, action: string, z: int, n: int, backing: seq<Buff>)
      requires Swept(was, left, action, z, n + 1, backing) && 0 <= n < |was|
      requires Hit(was, left, action, if z == n then n else LooksAt(z, n, |was|)) && (z != -1 && z != n ==> n < |was| - 1)
      ensures Progress(was, left, action, true, true, z, n + 1, backing)
    {
      hide Flagged;
    }

    lemma FoundOutcome(was: seq<Buff>, left: seq<int>, action: string, z: int, n: int, backing: seq<Buff>)
      requires Progress(was, left, action, false, false, z, n, backing) && Hit(was, left, action, LooksAt(z, n, |was|))
      ensures FlagOutcome(was, left, action, false, true, false)
    {
      hide Flagged;
    }

    // Buff 0 is met only once.
    lemma ZeroOnce(was: seq<Buff>, left: seq<int>, action: string, z: int, n: int, backing: seq<Buff>)
      requires NoDuplicates(IdsOf(was)) && Swept(was, left, action, z, n, backing) && n < |was|
      requires was[LooksAt(z, n, |was|)].buffId == 0
      ensures z == -1 && LooksAt(z, n, |was|) == n
    {
      hide Flagged;
      StepLooksAt(was, left, action, z, n, backing);
      assert forall i :: 0 <= i < |was| ==> IdsOf(was)[i] == was[i].buffId;
    }

    // The last buff, met a second time, has expired unless the cut was right before it.
    lemma LastAlive(was: seq<Buff>, left: seq<int>, action: string, z: int, n: int, backing: seq<Buff>)
      requires Swept(was, left, action, z, n, backing) && n < |was| && Carries(was[LooksAt(z, n, |was|)], action)
      requires Hit(was, left, action, LooksAt(z, n, |was|))
      ensures z < n
      ensures z != -1 && n == |was| - 1 ==> z == |was| - 2 && LooksAt(z, n, |was|) == |was| - 1
    {
      hide Flagged;
    }

    lemma ZeroIs(was: seq<Buff>, left: seq<int>, action: string, z: int)
      requires NoDuplicates(IdsOf(was)) && Hit(was, left, action, z) && was[z].buffId == 0
      ensures ZeroHit(was, left, action) == z
    {
      hide Flagged;
      assert forall i :: 0 <= i < |was| ==> IdsOf(was)[i] == was[i].buffId;
    }

    lemma CrashOutcome(was: seq<Buff>, left: seq<int>, action: string, z: int, backing: seq<Buff>)
      requires NoDuplicates(IdsOf(was)) && Swept(was, left, action, z, |was|, backing)
      requires 0 <= z == |was| - 2 && Hit(was, left, action, |was| - 1)
      ensures FlagOutcome(was, left, action, true, true, true)
    {
      hide Flagged;
      ZeroIs(was, left, action, z);
    }

    lemma DoneOutcome(was: seq<Buff>, left: seq<int>, action: string, expire: bool, found: bool, z: int, backing: seq<Buff>)
      requires NoDuplicates(IdsOf(was)) && Progress(was, left, action, expire, found, z, |was|, backing)
      ensures FlagOutcome(was, left, action, expire, found, false)
    {
      hide Flagged;
      if z != -1 {
        ZeroIs(was, left, action, z);
      }
    }

    // The guard AddBuff lacks: a negative id finds the spec of the positive one, and a new buff is then
    // listed under an id it does not have.
    ghost predicate AddKeepsLookups(buffId: int)
      reads this`list
    {
      buffId >= 0 || !Known(specs, buffId) || buffId in IdsOf(list)
    }
  }

  // The lookups as AddBuff extends them are those of the extended list exactly when the id is its own key.
  lemma AddedLookups(specs: map<int, BuffSpec>, ids: seq<int>, buffId: int)
    requires Known(specs, buffId) && NoDuplicates(ids) && buffId !in ids
    ensures var after := ids + [SpecKey(buffId)];
            (NoDuplicates(after) &&
             IdIndex(ids)[buffId := |ids|] == IdIndex(after) &&
             AddFlags(FlagIndex(specs, ids), FlagsOf(specs, buffId), |ids|) == FlagIndex(specs, after)) <==> buffId >= 0
  {
    var after := ids + [SpecKey(buffId)];
    assert after[..|ids|] == ids;
    IdIndexAt(ids);
    IdIndexAt(after);
    if buffId < 0 {
      assert buffId in IdIndex(ids)[buffId := |ids|];
    } else {
      assert SpecKey(SpecKey(buffId)) == SpecKey(buffId);
    }
  }

  // Where they disagree: with one spec, id 1, adding id -1 lists buff 1 under -1.
  lemma NegativeId()
    ensures var specs := map[1 := BuffSpec(1, 3, 2, [])];
            && Loaded(specs) && Known(specs, -1)
            && IdIndex([])[-1 := 0] != IdIndex([1]) && -1 in IdIndex([])[-1 := 0] && 1 !in IdIndex([])[-1 := 0]
  {
    IdIndexAt([1]);
    assert 1 in [1];
  }

  // A buff of 2 triggers every 3 rounds, added again after 3 rounds, is over after 9, not 6.
  lemma RefreshedLate()
    ensures var spec := BuffSpec(1, 3, 2, []);
            && !Over(Ticks(Life(3, 2), 3, 3)) && GetDurations(Ticks(Life(3, 2), 3, 3).roundCounter, spec).0 == 0
            && Over(Ticks(Life(3, 2), 3, 6))
  {
    TimedLife(Life(3, 2), 3, 3);
    TimedLife(Life(3, 2), 3, 6);
  }

  // ---------- failing inputs ----------

  method TwoBuffs() returns (bs: Buffs)
    ensures fresh(bs) && fresh(bs.list) && bs.Valid() && |bs.list| == 2 && bs.specs == map[1 := BuffSpec(1, 1, 1, []), 2 := BuffSpec(2, 1, 1, [])]
    ensures bs.list[0].buffId == 1 && bs.list[0].State() == Life(0, 1)
    ensures bs.list[1].buffId == 2 && bs.list[1].State() == Life(0, 1)
  {
    bs := new Buffs(map[1 := BuffSpec(1, 1, 1, []), 2 := BuffSpec(2, 1, 1, [])]);
    var _ := bs.AddBuff(1, false);
    var _ := bs.AddBuff(2, false);
  }

  lemma BothFire(bs: Buffs)
    requires bs.Valid() && |bs.list| == 2 && bs.specs == map[1 := BuffSpec(1, 1, 1, []), 2 := BuffSpec(2, 1, 1, [])]
    requires bs.list[0].buffId == 1 && bs.list[0].State() == Life(0, 1) && bs.list[1].buffId == 2 && bs.list[1].State() == Life(0, 1)
    ensures Filter<Buff>(bs.list, bs.Firing()) == bs.list
  {
    hide Filter;
    assert bs.list[0] in bs.Firing() && bs.list[1] in bs.Firing();
    FilterElements<Buff>(bs.list, bs.Firing());
  }

  // Trigger is passed id 1 and triggers buff 2 as well.
  method TriggerIgnoresIds() returns (triggered: seq<Buff>)
    ensures |triggered| == 2 && triggered[1].buffId == 2
  {
    hide Filter, FlagIndex, IdIndex, Buffs.Firing, Buffs.Meant;
    var bs := TwoBuffs();
    BothFire(bs);
    triggered := bs.Trigger([1]);
  }

  // Trigger is passed id 1, triggers no other buff, and ages buff 2 all the same.
  method TriggerAgesOthers() returns (triggered: seq<Buff>, other: Buff)
    ensures |triggered| == 1 && triggered[0].buffId == 1
    ensures other.buffId == 2 && other.roundCounter == 1
  {
    hide FlagIndex, IdIndex, Buffs.Agrees, Buffs.Meant, Buffs.AllNamed;
    var bs := new Buffs(map[1 := BuffSpec(1, 1, 1, []), 2 := BuffSpec(2, 3, 1, [])]);
    var _ := bs.AddBuff(1, false);
    var _ := bs.AddBuff(2, false);
    OnlyFirstFires(bs);
    other := bs.list[1];
    triggered := bs.Trigger([1]);
  }

  lemma OnlyFirstFires(bs: Buffs)
    requires bs.Valid() && |bs.list| == 2 && bs.specs == map[1 := BuffSpec(1, 1, 1, []), 2 := BuffSpec(2, 3, 1, [])]
    requires bs.list[0].buffId == 1 && bs.list[0].State() == Life(0, 1) && bs.list[1].buffId == 2 && bs.list[1].State() == Life(0, 1)
    ensures Filter<Buff>(bs.list, bs.Firing()) == [bs.list[0]]
  {
    var b: Buff, c: Buff := bs.list[0], bs.list[1];
    assert b in bs.Firing() && c !in bs.Firing();
    assert bs.list == [b] + [c];
    FilterConcat<Buff>([b], [c], bs.Firing());
  }

  // With one spec, 1, buff -1 added is listed as buff 1 and the lookups are wrong.
  method NegativeIdAdded() returns (bs: Buffs)
    ensures |bs.list| == 1 && bs.list[0].buffId == 1 && !bs.Agrees()
  {
    hide FlagIndex, IdIndex, Buffs.Agrees;
    bs := new Buffs(map[1 := BuffSpec(1, 3, 2, [])]);
    var _ := bs.AddBuff(-1, false);
  }

  method HiddenBuffs() returns (bs: Buffs)
    ensures fresh(bs) && fresh(bs.list) && bs.Valid() && bs.Agrees() && |bs.list| == 2
    ensures forall b :: b in bs.list ==> Known(bs.specs, b.buffId)
    ensures bs.ZeroHit(bs.list, bs.Lefts(), "hidden") == 0 && bs.Hit(bs.list, bs.Lefts(), "hidden", 1)
  {
    hide FlagIndex, IdIndex, AddFlags, NoDuplicates, Buffs.Hit, Buffs.ZeroHit;
    bs := new Buffs(map[0 := BuffSpec(0, 1, 1, ["hidden"]), 1 := BuffSpec(1, 1, 1, ["hidden"])]);
    var _ := bs.AddBuff(0, false);
    var _ := bs.AddBuff(1, false);
    BothHidden(bs);
  }

  lemma BothHidden(bs: Buffs)
    requires bs.specs == map[0 := BuffSpec(0, 1, 1, ["hidden"]), 1 := BuffSpec(1, 1, 1, ["hidden"])] && |bs.list| == 2
    requires bs.list[0].buffId == 0 && bs.list[0].triggersLeft == 1
    requires bs.list[1].buffId == 1 && bs.list[1].triggersLeft == 1
    ensures bs.ZeroHit(bs.list, bs.Lefts(), "hidden") == 0 && bs.Hit(bs.list, bs.Lefts(), "hidden", 1)
  {
    assert bs.Flagged(0, "hidden") && bs.Flagged(1, "hidden");
    bs.ZeroIs(bs.list, bs.Lefts(), "hidden", 0);
  }

  // The write back to the shortened list, with buff 0 in front of the last buff
  method HasFlagPanics() returns (crashed: bool)
    ensures crashed
  {
    hide FlagIndex, IdIndex, AddFlags, NoDuplicates, Buffs.Hit, Buffs.Agrees, Buffs.ZeroHit;
    var bs := HiddenBuffs();
    var _, panic := bs.HasFlag("hidden", true);
    return panic;
  }
}
