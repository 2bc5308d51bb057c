/** The loop of `merge` in src/files/main.c over any number of integer streams, each already
    opened and holding its first number. */
module MergeStreams {

  /** A printed number and the stream it came from. */
  datatype Pick = Pick(source: nat, value: int)

  // ----- What the loop prints -----

  /** The stream the `for` loop has settled on after `n` streams, -1 for none. */
  function Target(rest: seq<seq<int>>, n: nat): (t: int)
    requires n <= |rest|
    ensures t == -1 || (0 <= t < n && rest[t] != [])
  {
    if n == 0 then -1 else
    var t := Target(rest, n - 1);
    if rest[n - 1] != [] && (t == -1 || rest[t][0] > rest[n - 1][0]) then n - 1 else t
  }

  /** It is the first whose head is least, or all have ended. */
  lemma {:induction false} TargetIsLeast(rest: seq<seq<int>>, n: nat)
    requires n <= |rest|
    ensures var t := Target(rest, n);
            if t == -1 then forall i :: 0 <= i < n ==> rest[i] == []
            else forall i :: 0 <= i < n && rest[i] != [] ==>
                   if i < t then rest[t][0] < rest[i][0] else rest[t][0] <= rest[i][0]
  {
    if n == 0 {
    } else {
      TargetIsLeast(rest, n - 1);
    }
  }

  function Total(rest: seq<seq<int>>): nat {
    if rest == [] then 0 else |rest[0]| + Total(rest[1..])
  }

  function Advance(rest: seq<seq<int>>, t: nat): seq<seq<int>>
    requires t < |rest| && rest[t] != []
  {
    rest[t := rest[t][1..]]
  }

  lemma {:induction false} AdvanceShrinks(rest: seq<seq<int>>, t: nat)
    requires t < |rest| && rest[t] != []
    ensures Total(Advance(rest, t)) + 1 == Total(rest)
  {
    if t == 0 {
      assert Advance(rest, 0)[1..] == rest[1..];
    } else {
      AdvanceShrinks(rest[1..], t - 1);
      assert Advance(rest, t)[1..] == Advance(rest[1..], t - 1);
    }
  }

  function Merged(rest: seq<seq<int>>): seq<Pick>
    decreases Total(rest)
  {
    var t := Target(rest, |rest|);
    if t == -1 then [] else
    AdvanceShrinks(rest, t);
    [Pick(t, rest[t][0])] + Merged(Advance(rest, t))
  }

  lemma MergedStep(rest: seq<seq<int>>)
    ensures var t := Target(rest, |rest|);
            if t == -1 then Merged(rest) == []
            else Merged(rest) == [Pick(t, rest[t][0])] + Merged(Advance(rest, t))
                 && Total(Advance(rest, t)) < Total(rest)
  {
    var t := Target(rest, |rest|);
    if t != -1 {
      AdvanceShrinks(rest, t);
    }
  }

  /** `open[i]` is `f[i] != -1`, and `unread[i]` is what `read` still finds in the file. */
  ghost predicate Holds(rest: seq<seq<int>>, peek: array<int>, open: array<bool>, unread: array<seq<int>>)
    reads peek, open, unread
  {
    && peek.Length == open.Length == unread.Length == |rest|
    && forall i :: 0 <= i < |rest| ==> rest[i] == if open[i] then [peek[i]] + unread[i] else []
  }

  /** The `for` loop of `merge`. */
  method ChooseTarget(peek: array<int>, open: array<bool>, unread: array<seq<int>>, ghost rest: seq<seq<int>>)
    returns (target: int)
    requires Holds(rest, peek, open, unread)
    ensures target == Target(rest, |rest|)
    ensures target != -1 ==> target < peek.Length && peek[target] == rest[target][0]
  {
    target := -1;
    for i := 0 to peek.Length
      invariant target == Target(rest, i)
    {
      if !open[i] {
        continue;
      }
      if target == -1 || peek[target] > peek[i] {
        target := i;
      }
    }
  }

  /** The `read` after the number is printed: the next number, or the stream is closed. */
  method ReadNext(peek: array<int>, open: array<bool>, unread: array<seq<int>>, target: nat, ghost rest: seq<seq<int>>)
    requires Holds(rest, peek, open, unread) && target < |rest| && rest[target] != []
    modifies peek, open, unread
    ensures Holds(Advance(rest, target), peek, open, unread)
  {
    if unread[target] != [] {
      peek[target], unread[target] := unread[target][0], unread[target][1..];
    } else {
      open[target] := false;
    }
  }

  /** The streams as the loop starts: opened, with one number read from each. */
  method Prime(streams: seq<seq<int>>) returns (peek: array<int>, open: array<bool>, unread: array<seq<int>>)
    requires forall i :: 0 <= i < |streams| ==> streams[i] != []
    ensures fresh(peek) && fresh(open) && fresh(unread)
    ensures Holds(streams, peek, open, unread)
  {
    peek := new int[|streams|](i requires 0 <= i < |streams| => streams[i][0]);
    open := new bool[|streams|](_ => true);
    unread := new seq<int>[|streams|](i requires 0 <= i < |streams| => streams[i][1..]);
  }

  /** How many numbers of stream `i` are among the picks. */
  ghost function Taken(picks: seq<Pick>, i: nat): nat {
    |set q: nat | q < |picks| && picks[q].source == i|
  }

  /** After the picks `before`, the pick is the next number of its stream; the next numbers of
      streams below it are greater, those of streams above it are not less. */
  ghost predicate NextPick(streams: seq<seq<int>>, before: seq<Pick>, pick: Pick) {
    && pick.source < |streams| && Taken(before, pick.source) < |streams[pick.source]|
    && pick.value == streams[pick.source][Taken(before, pick.source)]
    && forall i: nat :: i < |streams| && Taken(before, i) < |streams[i]| ==>
         if i < pick.source then pick.value < streams[i][Taken(before, i)]
         else pick.value <= streams[i][Taken(before, i)]
  }

  lemma TakenGrows(picks: seq<Pick>, x: Pick, i: nat)
    ensures Taken(picks + [x], i) == Taken(picks, i) + if x.source == i then 1 else 0
  {
    var before := set q: nat | q < |picks| && picks[q].source == i;
    var after := set q: nat | q < |picks + [x]| && (picks + [x])[q].source == i;
    assert after == before + if x.source == i then {|picks|} else {};
  }

  /** The picks are right so far, and `rest` is what the streams still hold. */
  ghost predicate Progress(streams: seq<seq<int>>, picks: seq<Pick>, rest: seq<seq<int>>) {
    && |rest| == |streams|
    && (forall i: nat :: i < |streams| ==>
          Taken(picks, i) <= |streams[i]| && rest[i] == streams[i][Taken(picks, i)..])
    && forall p :: 0 <= p < |picks| ==> NextPick(streams, picks[..p], picks[p])
  }

  lemma PickIsNext(streams: seq<seq<int>>, picks: seq<Pick>, rest: seq<seq<int>>)
    requires Progress(streams, picks, rest) && Target(rest, |rest|) != -1
    ensures var t := Target(rest, |rest|); NextPick(streams, picks, Pick(t, rest[t][0]))
  {
    TargetIsLeast(rest, |rest|);
    hide Taken;
  }

  lemma ProgressGoesOn(streams: seq<seq<int>>, picks: seq<Pick>, rest: seq<seq<int>>)
    requires Progress(streams, picks, rest) && Target(rest, |rest|) != -1
    ensures var t := Target(rest, |rest|);
            Progress(streams, picks + [Pick(t, rest[t][0])], Advance(rest, t))
  {
    var t := Target(rest, |rest|);
    var pick := Pick(t, rest[t][0]);
    var longer := picks + [pick];
    PickIsNext(streams, picks, rest);
    hide Taken, NextPick, Target;
    forall i: nat | i < |streams|
      ensures Taken(longer, i) <= |streams[i]| && Advance(rest, t)[i] == streams[i][Taken(longer, i)..]
    {
      TakenGrows(picks, pick, i);
    }
    forall p | 0 <= p < |longer| ensures NextPick(streams, longer[..p], longer[p]) {
      assert longer[..p] == picks[..p];
    }
  }

  lemma ProgressEnds(streams: seq<seq<int>>, picks: seq<Pick>, rest: seq<seq<int>>, i: nat)
    requires Progress(streams, picks, rest) && Target(rest, |rest|) == -1 && i < |streams|
    ensures Taken(picks, i) == |streams[i]|
  {
    TargetIsLeast(rest, |rest|);
    hide Taken;
    assert rest[i] == [];
  }

  lemma NothingTaken(streams: seq<seq<int>>)
    ensures Progress(streams, [], streams)
  {
    forall i: nat | i < |streams| ensures Taken([], i) == 0 {
      var none: seq<Pick> := [];
      assert (set q: nat | q < |none| && none[q].source == i) == {};
    }
  }

  /** `merge` from its `while` loop on. Every number printed is the next one of its stream,
      with the least value, and of equal ones from the lowest stream; and all are printed. */
  method Merge(streams: seq<seq<int>>) returns (output: seq<Pick>)
    requires forall i :: 0 <= i < |streams| ==> streams[i] != []
    ensures output == Merged(streams)
    ensures forall p :: 0 <= p < |output| ==> NextPick(streams, output[..p], output[p])
    ensures forall i: nat :: i < |streams| ==> Taken(output, i) == |streams[i]|
  {
    hide Merged, Target, Holds, Total, Taken, NextPick;
    NothingTaken(streams);
    var peek, open, unread := Prime(streams);
    ghost var rest := streams;
    output := [];
    while true
      invariant Holds(rest, peek, open, unread)
      invariant output + Merged(rest) == Merged(streams)
      invariant Progress(streams, output, rest)
      decreases Total(rest)
    {
      var target := ChooseTarget(peek, open, unread, rest);
      MergedStep(rest);
      if target == -1 {
        forall i: nat | i < |streams| ensures Taken(output, i) == |streams[i]| {
          ProgressEnds(streams, output, rest, i);
        }
        break;
      }
      ProgressGoesOn(streams, output, rest);
      output := output + [Pick(target, peek[target])];
      ReadNext(peek, open, unread, target, rest);
      rest := Advance(rest, target);
    }
  }

  // ----- What that means -----

  /** The numbers printed from one stream, in the order of printing. */
  function From(picks: seq<Pick>, source: nat): seq<int> {
    if picks == [] then [] else
    (if picks[0].source == source then [picks[0].value] else []) + From(picks[1..], source)
  }

  /** Every stream is printed whole and in its own order. */
  lemma {:induction false} StreamsKept(rest: seq<seq<int>>, source: nat)
    requires source < |rest|
    ensures From(Merged(rest), source) == rest[source]
    decreases Total(rest)
  {
    hide Target, Merged;
    var t := Target(rest, |rest|);
    MergedStep(rest);
    if t == -1 {
      TargetIsLeast(rest, |rest|);
    } else {
      StreamsKept(Advance(rest, t), source);
      FromHead(Merged(rest), source);
      assert Merged(rest)[1..] == Merged(Advance(rest, t));
    }
  }

  function Values(picks: seq<Pick>): multiset<int> {
    if picks == [] then multiset{} else multiset{picks[0].value} + Values(picks[1..])
  }

  function Union(rest: seq<seq<int>>): multiset<int> {
    if rest == [] then multiset{} else multiset(rest[0]) + Union(rest[1..])
  }

  lemma {:induction false} AdvanceTakesHead(rest: seq<seq<int>>, t: nat)
    requires t < |rest| && rest[t] != []
    ensures Union(rest) == multiset{rest[t][0]} + Union(Advance(rest, t))
  {
    if t == 0 {
      assert rest[0] == [rest[0][0]] + rest[0][1..];
      assert Advance(rest, 0)[1..] == rest[1..];
    } else {
      AdvanceTakesHead(rest[1..], t - 1);
      assert Advance(rest, t)[1..] == Advance(rest[1..], t - 1);
    }
  }

  lemma {:induction false} NothingLeft(rest: seq<seq<int>>)
    requires forall i :: 0 <= i < |rest| ==> rest[i] == []
    ensures Union(rest) == multiset{}
  {
    if rest == [] {
    } else {
      NothingLeft(rest[1..]);
    }
  }

  /** The numbers printed are the numbers of all the streams, with their repetitions. */
  lemma {:induction false} NumbersKept(rest: seq<seq<int>>)
    ensures Values(Merged(rest)) == Union(rest)
    decreases Total(rest)
  {
    var t := Target(rest, |rest|);
    if t == -1 {
      TargetIsLeast(rest, |rest|);
      NothingLeft(rest);
    } else {
      AdvanceShrinks(rest, t);
      AdvanceTakesHead(rest, t);
      NumbersKept(Advance(rest, t));
      assert Merged(rest)[1..] == Merged(Advance(rest, t));
    }
  }

  // ----- Sorted streams -----

  predicate Sorted(s: seq<int>) {
    forall i, j :: 0 <= i < j < |s| ==> s[i] <= s[j]
  }

  /** Smaller numbers come first, and of equal ones those of the lower stream. */
  predicate Before(p: Pick, q: Pick) {
    p.value < q.value || (p.value == q.value && p.source <= q.source)
  }

  predicate InOrder(picks: seq<Pick>) {
    forall i, j :: 0 <= i < j < |picks| ==> Before(picks[i], picks[j])
  }

  /** Every pick is from a stream, with a number of that stream. */
  lemma {:induction false} PickedFrom(picks: seq<Pick>, j: nat)
    requires j < |picks|
    ensures picks[j].value in From(picks, picks[j].source)
  {
    if j == 0 {
    } else {
      PickedFrom(picks[1..], j - 1);
    }
  }

  lemma {:induction false} SourcesInRange(rest: seq<seq<int>>)
    ensures forall j :: 0 <= j < |Merged(rest)| ==> Merged(rest)[j].source < |rest|
    decreases Total(rest)
  {
    var t := Target(rest, |rest|);
    if t == -1 {
    } else {
      AdvanceShrinks(rest, t);
      SourcesInRange(Advance(rest, t));
    }
  }

  predicate AllSorted(rest: seq<seq<int>>) {
    forall i :: 0 <= i < |rest| ==> Sorted(rest[i])
  }

  /** The number chosen is before everything the streams still hold. */
  lemma TargetIsFirst(rest: seq<seq<int>>, p: Pick)
    requires AllSorted(rest) && p.source < |rest| && p.value in rest[p.source]
    ensures var t := Target(rest, |rest|);
            t != -1 && Before(Pick(t, rest[t][0]), p)
  {
    var s := rest[p.source];
    var i :| 0 <= i < |s| && s[i] == p.value;
    TargetIsLeast(rest, |rest|);
    assert s[0] <= s[i];
  }

  /** From sorted streams the output is sorted, ties in the order of the streams. */
  lemma {:induction false} SortedOutput(rest: seq<seq<int>>)
    requires AllSorted(rest)
    ensures InOrder(Merged(rest))
    decreases Total(rest)
  {
    var t := Target(rest, |rest|);
    if t == -1 {
    } else {
      AdvanceShrinks(rest, t);
      var next := Advance(rest, t);
      SortedOutput(next);
      SourcesInRange(next);
      forall j | 0 <= j < |Merged(next)|
        ensures Before(Pick(t, rest[t][0]), Merged(next)[j])
      {
        var p := Merged(next)[j];
        PickedFrom(Merged(next), j);
        StreamsKept(next, p.source);
        assert p.value in rest[p.source];
        TargetIsFirst(rest, p);
      }
    }
  }

  lemma {:induction false} FromAbove(picks: seq<Pick>, source: nat, v: int)
    requires forall j :: 0 <= j < |picks| ==> v <= picks[j].value
    ensures forall k :: 0 <= k < |From(picks, source)| ==> v <= From(picks, source)[k]
  {
    if picks == [] {
    } else {
      FromAbove(picks[1..], source, v);
    }
  }

  lemma {:induction false} FromInOrder(picks: seq<Pick>, source: nat)
    requires InOrder(picks)
    ensures Sorted(From(picks, source))
  {
    if picks == [] {
    } else {
      InOrderTail(picks);
      FromInOrder(picks[1..], source);
      FromAbove(picks[1..], source, picks[0].value);
    }
  }

  /** Sorted streams are exactly what sorted output takes. */
  lemma SortedIff(rest: seq<seq<int>>)
    ensures InOrder(Merged(rest)) <==> AllSorted(rest)
  {
    if AllSorted(rest) {
      SortedOutput(rest);
    }
    if InOrder(Merged(rest)) {
      forall i | 0 <= i < |rest|
        ensures Sorted(rest[i])
      {
        FromInOrder(Merged(rest), i);
        StreamsKept(rest, i);
      }
    }
  }

  lemma {:induction false} FromHas(picks: seq<Pick>, source: nat) returns (j: nat)
    requires From(picks, source) != []
    ensures j < |picks| && picks[j].source == source && picks[j].value == From(picks, source)[0]
  {
    if picks[0].source == source {
      j := 0;
    } else {
      j := FromHas(picks[1..], source);
      j := j + 1;
    }
  }

  /** The streams are what was picked from them. */
  predicate Interleaves(picks: seq<Pick>, rest: seq<seq<int>>) {
    && (forall j :: 0 <= j < |picks| ==> picks[j].source < |rest|)
    && (forall i :: 0 <= i < |rest| ==> From(picks, i) == rest[i])
  }

  lemma FromHead(picks: seq<Pick>, source: nat)
    requires picks != []
    ensures From(picks, source)
         == (if picks[0].source == source then [picks[0].value] else []) + From(picks[1..], source)
  {
  }

  lemma FirstPick(rest: seq<seq<int>>, picks: seq<Pick>)
    requires AllSorted(rest) && InOrder(picks) && Interleaves(picks, rest) && picks != []
    ensures var t := Target(rest, |rest|);
            t != -1 && picks[0] == Pick(t, rest[t][0]) && Interleaves(picks[1..], Advance(rest, t))
  {
    hide Target, InOrder, AllSorted, From;
    var t, p := Target(rest, |rest|), picks[0];
    FromHead(picks, p.source);
    assert p.value in rest[p.source];
    TargetIsFirst(rest, p);
    FirstIsTarget(rest, picks, t);
    TailInterleaves(rest, picks, t);
  }

  lemma TailInterleaves(rest: seq<seq<int>>, picks: seq<Pick>, t: nat)
    requires Interleaves(picks, rest) && picks != []
    requires t < |rest| && rest[t] != [] && picks[0] == Pick(t, rest[t][0])
    ensures Interleaves(picks[1..], Advance(rest, t))
  {
    hide From;
    forall i | 0 <= i < |rest|
      ensures From(picks[1..], i) == Advance(rest, t)[i]
    {
      FromHead(picks, i);
      assert From(picks, i) == rest[i];
    }
  }

  lemma FirstIsTarget(rest: seq<seq<int>>, picks: seq<Pick>, t: nat)
    requires InOrder(picks) && Interleaves(picks, rest) && picks != []
    requires t < |rest| && rest[t] != [] && Before(Pick(t, rest[t][0]), picks[0])
    ensures picks[0] == Pick(t, rest[t][0])
  {
    assert From(picks, t) == rest[t];
    var j := FromHas(picks, t);
    assert j == 0 || Before(picks[0], picks[j]);
  }

  /** It is the only such output: any interleaving of sorted streams in this order is the one
      that the loop prints. */
  lemma {:induction false} OnlyOutput(rest: seq<seq<int>>, picks: seq<Pick>)
    requires AllSorted(rest) && InOrder(picks) && Interleaves(picks, rest)
    ensures picks == Merged(rest)
    decreases |picks|
  {
    hide Merged, InOrder, Interleaves, Target;
    var t := Target(rest, |rest|);
    MergedStep(rest);
    if picks == [] {
      NothingPicked(rest, picks);
    } else {
      FirstPick(rest, picks);
      InOrderTail(picks);
      OnlyOutput(Advance(rest, t), picks[1..]);
    }
  }

  lemma NothingPicked(rest: seq<seq<int>>, picks: seq<Pick>)
    requires Interleaves(picks, rest) && picks == []
    ensures forall i :: 0 <= i < |rest| ==> rest[i] == []
  {
    forall i | 0 <= i < |rest|
      ensures rest[i] == []
    {
      assert From(picks, i) == rest[i];
    }
  }

  lemma InOrderTail(picks: seq<Pick>)
    requires InOrder(picks) && picks != []
    ensures InOrder(picks[1..])
  {
  }
}
