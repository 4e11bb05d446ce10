/**
 cut_and_choose/cut_and_choose.h: a protocol is executed T times, the verifier names R instances,
 and the prover opens all the others in order until one fails.  The protocol is a record of
 functions; an exception is an `Err`.  `exec` is given the instance number, which stands for the
 fresh randomness of that instance.
 */
module CutAndChoose {
  import opened Outcome
  import opened Sorting

  datatype Protocol<!A, !B> = Protocol(
    init: (A, B) -> Result<(A, B)>,
    exec: (nat, A, B) -> Result<(A, B)>,
    open: (A, B) -> Result<(A, B)>,
    verified: B -> bool)

  class Prover<A> {
    var v: seq<A>

    constructor (v: seq<A>)
      ensures this.v == v
    {
      this.v := v;
    }
  }

  class Verifier<B> {
    var v: seq<B>
    var i: seq<int>
    var res: bool

    constructor (v: seq<B>, i: seq<int>)
      ensures this.v == v && this.i == i
    {
      this.v, this.i, res := v, i, false;
    }

    method GetI() returns (r: Result<seq<int>>)
      ensures r == if i == [] then Err("i is not set") else Ok(i)
    {
      return if i == [] then Err("i is not set") else Ok(i);
    }
  }

  // ---------------------------------------------------------------- the index list

  predicate InRange(s: seq<int>, T: nat) {
    forall x :: x in s ==> 0 <= x < T
  }

  /** What a caller has to supply: R >= 1 distinct indices below T, in any order. */
  predicate ValidChoice(chosen: seq<int>, T: nat, R: nat) {
    chosen != [] && |chosen| == R && InRange(chosen, T) && Distinct(chosen)
  }

  /** The check of neighbours in the sorted list accepts exactly the lists without repetitions. */
  lemma SortedCheckIsExact(chosen: seq<int>, T: nat)
    ensures StrictlyAscending(Sort(chosen)) <==> Distinct(chosen)
    ensures InRange(Sort(chosen), T) <==> InRange(chosen, T)
  {
    SameMembers(chosen);
    DistinctIffFull(chosen);
    DistinctIffFull(Sort(chosen));
    AscendingDistinct(Sort(chosen));
    assert forall x :: x in chosen <==> x in Members(chosen);
    assert forall x :: x in Sort(chosen) <==> x in Members(Sort(chosen));
  }

  /** The R different values drawn first, in ascending order. */
  ghost predicate PickedFrom(draws: seq<int>, R: nat, picked: seq<int>) {
    && |picked| == R && StrictlyAscending(picked)
    && exists k :: 0 <= k <= |draws| && Members(picked) == Members(draws[..k])
  }

  /** Buyer::pickR, over the stream of values the generator returns: None while it is still drawing.
      std::set<int> is kept as its ascending list. */
  method PickR(draws: seq<int>, T: nat, R: nat) returns (r: Result<seq<int>>)
    requires R >= 1 && InRange(draws, T)
    ensures r.Ok? ==> ValidChoice(r.value, T, R) && StrictlyAscending(r.value)
    ensures r.Ok? ==> forall x :: x in r.value ==> x in draws
    ensures r.Ok? <==> |Members(draws)| >= R
    ensures r.Ok? ==> PickedFrom(draws, R, r.value)
  {
    var chosen: seq<int> := [];
    var k := 0;
    while |chosen| < R && k < |draws|
      invariant 0 <= k <= |draws| && |chosen| <= R
      invariant StrictlyAscending(chosen)
      invariant Members(chosen) == Members(draws[..k])
    {
      var x := draws[k];
      assert draws[..k + 1] == draws[..k] + [x];
      assert Members(draws[..k + 1]) == Members(draws[..k]) + {x};
      if x !in chosen {
        InsertNew(x, chosen);
        chosen := Insert(x, chosen);
      }
      k := k + 1;
    }
    DistinctIffFull(chosen);
    assert draws == draws[..k] + draws[k..];
    assert Members(chosen) <= Members(draws);
    SubsetSize(Members(chosen), Members(draws));
    assert forall x :: x in chosen ==> x in Members(draws);
    if |chosen| < R {
      assert draws[..k] == draws;
      return Err("still drawing");
    }
    return Ok(chosen);
  }

  // ---------------------------------------------------------------- one instance

  function RunOne<A, B>(pr: Protocol<A, B>, i: nat, a: A, b: B): Result<(A, B)> {
    var x :- pr.init(a, b);
    pr.exec(i, x.0, x.1)
  }

  datatype Verdict = Passed | Failed | Threw

  function OpenVerdict<A, B>(pr: Protocol<A, B>, a: A, b: B): Verdict {
    match pr.open(a, b)
    case Err(_) => Threw
    case Ok(x) => if pr.verified(x.1) then Passed else Failed
  }

  /** The T instances after the execution loop, when none of them throws. */
  ghost predicate AllRun<A, B>(pr: Protocol<A, B>, a: seq<A>, b: seq<B>, a': seq<A>, b': seq<B>)
    requires |a| == |b|
  {
    && |a'| == |a| && |b'| == |b|
    && forall i :: 0 <= i < |a| ==> RunOne(pr, i, a[i], b[i]) == Ok((a'[i], b'[i]))
  }

  ghost predicate SomeRunThrows<A, B>(pr: Protocol<A, B>, a: seq<A>, b: seq<B>)
    requires |a| == |b|
  {
    exists i :: 0 <= i < |a| && RunOne(pr, i, a[i], b[i]).Err?
  }

  // Every unchosen instance below i passes when it is opened.
  ghost predicate PassedBelow<A, B>(pr: Protocol<A, B>, chosen: seq<int>, a: seq<A>, b: seq<B>, i: int)
    requires |a| == |b| && i <= |a|
  {
    forall k {:trigger OpenVerdict(pr, a[k], b[k])} :: 0 <= k < i && k !in chosen ==> OpenVerdict(pr, a[k], b[k]) == Passed
  }

  /** The instances below i that were not chosen have been opened; all others are untouched. */
  ghost predicate OpenedBelow<A, B>(pr: Protocol<A, B>, chosen: seq<int>, a: seq<A>, b: seq<B>, a': seq<A>, b': seq<B>, i: int)
    requires |a| == |b|
  {
    && |a'| == |a| && |b'| == |b|
    && forall k :: 0 <= k < |a| ==>
      if k < i && k !in chosen then pr.open(a[k], b[k]) == Ok((a'[k], b'[k])) else a'[k] == a[k] && b'[k] == b[k]
  }

  /** The first unchosen instance whose opening does not pass. */
  ghost predicate FirstBad<A, B>(pr: Protocol<A, B>, chosen: seq<int>, a: seq<A>, b: seq<B>, f: int)
    requires |a| == |b|
  {
    0 <= f < |a| && f !in chosen && OpenVerdict(pr, a[f], b[f]) != Passed && PassedBelow(pr, chosen, a, b, f)
  }

  lemma FirstBadUnique<A, B>(pr: Protocol<A, B>, chosen: seq<int>, a: seq<A>, b: seq<B>, f: int, g: int)
    requires |a| == |b| && FirstBad(pr, chosen, a, b, f) && FirstBad(pr, chosen, a, b, g)
    ensures f == g
  {
  }

  // ---------------------------------------------------------------- the whole loop

  datatype Ending = RunThrew | BadChoice | Accepted | Rejected(f: nat) | OpenThrew(f: nat)

  /** How cut_and_choose has to end, from the states after execution. */
  ghost predicate EndsWith<A, B>(pr: Protocol<A, B>, chosen: seq<int>, T: nat, R: nat, a: seq<A>, b: seq<B>, e: Ending)
    requires |a| == |b|
  {
    match e
    case RunThrew => false
    case BadChoice => !ValidChoice(chosen, T, R)
    case Accepted => ValidChoice(chosen, T, R) && PassedBelow(pr, chosen, a, b, |a|)
    case Rejected(f) => ValidChoice(chosen, T, R) && FirstBad(pr, chosen, a, b, f) && OpenVerdict(pr, a[f], b[f]) == Failed
    case OpenThrew(f) => ValidChoice(chosen, T, R) && FirstBad(pr, chosen, a, b, f) && OpenVerdict(pr, a[f], b[f]) == Threw
  }

  method RunAll<A, B>(pr: Protocol<A, B>, p: Prover<A>, v: Verifier<B>) returns (out: Result<()>)
    requires |p.v| == |v.v|
    modifies p`v, v`v
    ensures out.Ok? ==> AllRun(pr, old(p.v), old(v.v), p.v, v.v)
    ensures out.Err? ==> SomeRunThrows(pr, old(p.v), old(v.v))
  {
    ghost var a0, b0 := p.v, v.v;
    var i := 0;
    while i < |p.v|
      invariant 0 <= i <= |p.v| == |a0| == |v.v| == |b0|
      invariant forall k :: 0 <= k < i ==> RunOne(pr, k, a0[k], b0[k]) == Ok((p.v[k], v.v[k]))
      invariant forall k :: i <= k < |a0| ==> p.v[k] == a0[k] && v.v[k] == b0[k]
    {
      var x := RunOne(pr, i, p.v[i], v.v[i]);
      if x.Err? {
        return Err(x.error);
      }
      p.v := p.v[i := x.value.0];
      v.v := v.v[i := x.value.1];
      i := i + 1;
    }
    return Ok(());
  }

  /** The validation of the sorted list. */
  method CheckChoice(chosen: seq<int>, T: nat, R: nat) returns (ok: bool)
    requires Ascending(chosen)
    ensures ok <==> |chosen| == R && StrictlyAscending(chosen) && InRange(chosen, T)
  {
    if |chosen| != R {
      return false;
    }
    var ix := 0;
    while ix < R
      invariant 0 <= ix <= R
      invariant forall k :: 0 <= k < ix ==> 0 <= chosen[k] < T
      invariant forall k, l :: 0 <= k < l < ix ==> chosen[k] < chosen[l]
    {
      if chosen[ix] < 0 || chosen[ix] >= T {
        assert chosen[ix] in chosen;
        return false;
      }
      if ix > 0 && chosen[ix] == chosen[ix - 1] {
        return false;
      }
      ix := ix + 1;
    }
    return true;
  }

  /** The opening loop, once the list is known to be good: `chosen` is its sorted form. */
  method OpenUnchosen<A, B>(pr: Protocol<A, B>, p: Prover<A>, v: Verifier<B>, chosen: seq<int>, T: nat, R: nat)
    returns (out: Result<()>, ghost e: Ending)
    requires |p.v| == |v.v| == T && |chosen| == R && StrictlyAscending(chosen) && InRange(chosen, T)
    requires Members(chosen) == Members(v.i) && ValidChoice(v.i, T, R)
    modifies p`v, v`v, v`res
    ensures EndsWith(pr, v.i, T, R, old(p.v), old(v.v), e) && !e.BadChoice?
    ensures out.Ok? <==> e.Accepted? || e.Rejected?
    ensures out.Ok? ==> v.res == e.Accepted?
    ensures e.Accepted? ==> OpenedBelow(pr, v.i, old(p.v), old(v.v), p.v, v.v, T)
    ensures e.Rejected? ==> OpenedBelow(pr, v.i, old(p.v), old(v.v), p.v, v.v, e.f + 1)
  {
    ghost var a, b := p.v, v.v;
    assert forall k :: 0 <= k < R ==> chosen[k] in chosen;
    var ix := 0;
    v.res := true;
    var i := 0;
    while i < T
      invariant 0 <= i <= T && 0 <= ix <= R
      invariant |p.v| == |v.v| == T && v.res
      invariant forall k :: 0 <= k < ix ==> chosen[k] < i
      invariant forall k :: ix <= k < R ==> i <= chosen[k]
      invariant PassedBelow(pr, v.i, a, b, i)
      invariant OpenedBelow(pr, v.i, a, b, p.v, v.v, i)
    {
      assert i in chosen <==> i in v.i by {
        assert i in Members(chosen) <==> i in Members(v.i);
      }
      if ix == R || i != chosen[ix] {
        NotChosen(chosen, ix, i);
        var x := pr.open(p.v[i], v.v[i]);
        if x.Err? {
          e := OpenThrew(i);
          out := Err(x.error);
          return;
        }
        p.v := p.v[i := x.value.0];
        v.v := v.v[i := x.value.1];
        if !pr.verified(v.v[i]) {
          v.res := false;
          e := Rejected(i);
          out := Ok(());
          return;
        }
      } else {
        assert i in chosen;
        ix := ix + 1;
      }
      i := i + 1;
    }
    // the closing check of the original: every chosen index has been passed
    assert ix == R;
    e := Accepted;
    out := Ok(());
  }

  /** cut_and_choose.  Each ending is decided by the choice and the executed instances a, b, and
      the closing assertion of the original is not among them. */
  method CutAndChoose<A, B>(pr: Protocol<A, B>, p: Prover<A>, v: Verifier<B>, T: nat, R: nat)
    returns (out: Result<()>, ghost e: Ending, ghost a: seq<A>, ghost b: seq<B>)
    requires |p.v| == |v.v| == T
    modifies p`v, v`v, v`res
    ensures e == RunThrew <==> SomeRunThrows(pr, old(p.v), old(v.v))
    ensures e != RunThrew ==> AllRun(pr, old(p.v), old(v.v), a, b) && EndsWith(pr, v.i, T, R, a, b, e)
    ensures out.Ok? <==> e.Accepted? || e.Rejected?
    ensures out.Ok? ==> v.res == e.Accepted?
    ensures e.Accepted? ==> OpenedBelow(pr, v.i, a, b, p.v, v.v, T)
    ensures e.Rejected? ==> OpenedBelow(pr, v.i, a, b, p.v, v.v, e.f + 1)
    ensures e.BadChoice? ==> p.v == a && v.v == b
  {
    ghost var a0, b0 := p.v, v.v;
    out := RunAll(pr, p, v);
    a, b := p.v, v.v;
    if out.Err? {
      e := RunThrew;
      return;
    }
    AllRunNoneThrows(pr, a0, b0, a, b);
    e := BadChoice;
    var given := v.GetI();
    if given.Err? {
      out := Err(given.error);
      return;
    }
    var chosen := Sort(given.value);
    SameMembers(v.i);
    SortedCheckIsExact(v.i, T);
    var ok := CheckChoice(chosen, T, R);
    if !ok {
      out := Err("Wrong set of indices");
      return;
    }
    out, e := OpenUnchosen(pr, p, v, chosen, T, R);
  }

  lemma AllRunNoneThrows<A, B>(pr: Protocol<A, B>, a: seq<A>, b: seq<B>, a': seq<A>, b': seq<B>)
    requires |a| == |b| && AllRun(pr, a, b, a', b')
    ensures !SomeRunThrows(pr, a, b)
  {
  }

  // Between two chosen indices no index is chosen.
  lemma NotChosen(chosen: seq<int>, ix: nat, i: int)
    requires ix <= |chosen|
    requires StrictlyAscending(chosen)
    requires forall k :: 0 <= k < ix ==> chosen[k] < i
    requires forall k :: ix <= k < |chosen| ==> i <= chosen[k]
    requires ix == |chosen| || i != chosen[ix]
    ensures i !in chosen
  {
  }

  /** The endings exclude each other, so the execution and the choice decide the result. */
  lemma EndingIsDecided<A, B>(pr: Protocol<A, B>, chosen: seq<int>, T: nat, R: nat, a: seq<A>, b: seq<B>, e: Ending, e': Ending)
    requires |a| == |b| && EndsWith(pr, chosen, T, R, a, b, e) && EndsWith(pr, chosen, T, R, a, b, e')
    ensures e == e'
  {
    if (e.Rejected? || e.OpenThrew?) && (e'.Rejected? || e'.OpenThrew?) {
      FirstBadUnique(pr, chosen, a, b, e.f, e'.f);
    }
  }
}
