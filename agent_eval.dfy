/**
  The evaluation runner: the linear-interpolation percentile, the bounded retry
  around the model client, and the loop that turns one question after another
  into a result row and collects the latencies of the calls that succeeded.

  The model client, the clock and the fuzzy scorer are not modelled. The client
  and the clock become an oracle that says what the k-th attempt did (raised, or
  returned after so many seconds), and the scorer becomes a function parameter.
*/
module AgentEval {
  import opened Wrappers

  function Min(a: int, b: int): int { if a <= b then a else b }

  function Max(a: int, b: int): int { if a <= b then b else a }

  // ---------------------------------------------------------------------------
  // percentile
  // ---------------------------------------------------------------------------

  predicate Sorted(s: seq<real>) {
    forall i, j :: 0 <= i < j < |s| ==> s[i] <= s[j]
  }

  /** Where `x` goes in a sorted sequence: after every element below it. */
  function Slot(x: real, s: seq<real>): (i: nat)
    ensures i <= |s|
    ensures forall k :: 0 <= k < i ==> s[k] < x
    ensures i < |s| ==> x <= s[i]
  {
    if s == [] || x <= s[0] then 0 else 1 + Slot(x, s[1..])
  }

  /** Putting `x` at a slot between the smaller and the not-smaller elements keeps a sequence sorted. */
  lemma SortedAtSlot(x: real, s: seq<real>, i: nat)
    requires Sorted(s) && i <= |s|
    requires forall k :: 0 <= k < i ==> s[k] < x
    requires i < |s| ==> x <= s[i]
    ensures Sorted(s[..i] + [x] + s[i..])
  {
    var r := s[..i] + [x] + s[i..];
    assert forall k :: 0 <= k < i ==> r[k] == s[k];
    assert r[i] == x;
    assert forall k :: i < k < |r| ==> r[k] == s[k - 1];
  }

  /** Inserts `x` into a sorted sequence. */
  function Insert(x: real, s: seq<real>): (r: seq<real>)
    requires Sorted(s)
    ensures |r| == |s| + 1
    ensures Sorted(r)
    ensures multiset(r) == multiset(s) + multiset{x}
  {
    var i := Slot(x, s);
    SortedAtSlot(x, s, i);
    assert s == s[..i] + s[i..];
    s[..i] + [x] + s[i..]
  }

  /** `sorted(arr)`: the values in ascending order. */
  function Sort(s: seq<real>): (r: seq<real>)
    ensures |r| == |s|
    ensures Sorted(r)
    ensures multiset(r) == multiset(s)
  {
    if s == [] then []
    else
      assert s == [s[0]] + s[1..];
      Insert(s[0], Sort(s[1..]))
  }

  /** In a sorted sequence every element lies between the first and the last. */
  lemma SortedBounds(a: seq<real>, x: real)
    requires Sorted(a) && x in multiset(a)
    ensures a[0] <= x <= a[|a| - 1]
  {
    assert x in a;
    var k :| 0 <= k < |a| && a[k] == x;
  }

  /** Two sorted arrangements of the same values start with the same value. */
  lemma SameHead(a: seq<real>, b: seq<real>)
    requires Sorted(a) && Sorted(b) && a != [] && b != []
    requires multiset(a) == multiset(b)
    ensures a[0] == b[0]
  {
    assert a[0] in multiset(a) && b[0] in multiset(b);
    SortedBounds(b, a[0]);
    SortedBounds(a, b[0]);
  }

  /** Dropping the first element of a sorted sequence leaves it sorted. */
  lemma SortedTail(a: seq<real>)
    requires Sorted(a) && a != []
    ensures Sorted(a[1..])
  {
  }

  /** Two sorted arrangements of the same values are the same sequence. */
  lemma {:induction false} SortedUnique(a: seq<real>, b: seq<real>)
    requires Sorted(a) && Sorted(b)
    requires multiset(a) == multiset(b)
    ensures a == b
  {
    assert |a| == |b| by {
      assert |a| == |multiset(a)| && |b| == |multiset(b)|;
    }
    if a != [] {
      SameHead(a, b);
      TailMultiset(a);
      TailMultiset(b);
      SortedTail(a);
      SortedTail(b);
      SortedUnique(a[1..], b[1..]);
      assert a == [a[0]] + a[1..] && b == [b[0]] + b[1..];
    }
  }

  /** Dropping the first element removes one occurrence of it. */
  lemma TailMultiset(s: seq<real>)
    requires s != []
    ensures multiset(s[1..]) == multiset(s) - multiset{s[0]}
  {
    assert s == [s[0]] + s[1..];
  }

  /** Python's `int(x)`: truncation toward zero. */
  function Trunc(x: real): (r: int)
    ensures 0.0 <= x ==> r as real <= x < r as real + 1.0
    ensures x < 0.0 ==> r as real - 1.0 < x <= r as real
  {
    if x >= 0.0 then x.Floor else -((-x).Floor)
  }

  /** Truncating a number between 0 and a whole `k` gives a whole number between 0 and `k`. */
  lemma TruncWithin(x: real, k: int)
    ensures 0.0 <= x <= k as real ==> 0 <= Trunc(x) <= k
  {
  }

  /** Python's `a[k]`, which counts from the end for a negative `k`. */
  function PyAt(a: seq<real>, k: int): real
    requires -|a| <= k < |a|
  {
    if k < 0 then a[|a| + k] else a[k]
  }

  /** Scaling a non-negative number by a weight in [0, 1] keeps it between 0 and the number. */
  lemma Scale(x: real, w: real)
    ensures 0.0 <= x && 0.0 <= w <= 1.0 ==> 0.0 <= x * w <= x
  {
    if 0.0 <= x && 0.0 <= w <= 1.0 {
      assert x * w <= x * 1.0;
    }
  }

  /**
    A position `i` split into the lower index `lo`, the upper index `hi`
    (clamped to the last index `n - 1`) and the fraction `t` between them.
  */
  function Split(n: nat, i: real): (b: (int, int, real))
    requires n > 0
    ensures b.1 <= n - 1 && b.1 <= b.0 + 1
    ensures b.0 as real + b.2 == i
    ensures 0.0 <= i <= (n - 1) as real ==> 0 <= b.0 <= b.1 && 0.0 <= b.2 < 1.0
    ensures 0.0 <= i <= (n - 1) as real && b.0 < n - 1 ==> b.1 == b.0 + 1
  {
    TruncWithin(i, n - 1);
    var lo := Trunc(i);
    (lo, Min(lo + 1, n - 1), i - lo as real)
  }

  /** The point a fraction `t` of the way from `x` to `y`. */
  function Lerp(x: real, y: real, t: real): real {
    x * (1.0 - t) + y * t
  }

  /** Linear interpolation at position `i` over sorted values, indexing as Python does. */
  function Interpolated(a: seq<real>, i: real): Result<real>
    requires a != []
  {
    var b := Split(|a|, i);
    if -|a| <= b.0 < |a| then
      Ok(Lerp(PyAt(a, b.0), PyAt(a, b.1), b.2))
    else
      Err("IndexError: list index out of range")
  }

  /** The position `(len(arr)-1)*p` that `percentile` interpolates at. */
  function Position(n: nat, p: real): (i: real)
    ensures 0 < n && 0.0 <= p <= 1.0 ==> 0.0 <= i <= (n - 1) as real
  {
    Scale((n - 1) as real, p);
    (n - 1) as real * p
  }

  /**
    `percentile`: `0.0` for no values; otherwise linear interpolation between the
    sorted values at `lo` and `hi`. For `p` outside [0, 1] the index can leave the
    list, which raises `IndexError`.
  */
  function Percentile(arr: seq<real>, p: real): (r: Result<real>)
    ensures arr == [] ==> r == Ok(0.0)
    ensures 0.0 <= p <= 1.0 ==> r.Ok?
  {
    if arr == [] then Ok(0.0)
    else
      var i := Position(|arr|, p);
      InterpolatedValue(Sort(arr), i);
      Interpolated(Sort(arr), i)
  }

  /** At a position inside the list both indices are in range, and the result lies between their values. */
  lemma InterpolatedValue(a: seq<real>, i: real)
    requires a != []
    ensures var b := Split(|a|, i);
      0.0 <= i <= (|a| - 1) as real ==>
        0 <= b.0 <= b.1 < |a| && Interpolated(a, i) == Ok(Lerp(a[b.0], a[b.1], b.2))
  {
    var b := Split(|a|, i);
    if 0.0 <= i <= (|a| - 1) as real {
      assert PyAt(a, b.0) == a[b.0] && PyAt(a, b.1) == a[b.1];
    }
  }

  /** A weighted mean of `x <= y` with weight `t` in [0, 1] lies between them. */
  lemma Between(x: real, y: real, t: real)
    requires x <= y && 0.0 <= t <= 1.0
    ensures x <= Lerp(x, y, t) <= y
  {
    Scale(y - x, t);
    assert Lerp(x, y, t) == x + (y - x) * t;
  }

  /** The first sorted value is the least of the values, and the last is the greatest. */
  lemma SortEnds(arr: seq<real>)
    requires arr != []
    ensures Sort(arr)[0] in arr && Sort(arr)[|arr| - 1] in arr
    ensures forall x :: x in arr ==> Sort(arr)[0] <= x <= Sort(arr)[|arr| - 1]
  {
    var a := Sort(arr);
    assert a[0] in multiset(a) && a[|a| - 1] in multiset(a);
    forall x | x in arr ensures a[0] <= x <= a[|a| - 1] {
      assert x in multiset(arr);
      SortedBounds(a, x);
    }
  }

  /** For `p` in [0, 1] the percentile lies between the least and the greatest value. */
  lemma PercentileWithinData(arr: seq<real>, p: real)
    requires arr != [] && 0.0 <= p <= 1.0
    ensures Percentile(arr, p).Ok?
    ensures exists x :: x in arr && x <= Percentile(arr, p).value
    ensures exists y :: y in arr && Percentile(arr, p).value <= y
  {
    var a, i := Sort(arr), Position(|arr|, p);
    var b := Split(|a|, i);
    SortEnds(arr);
    InterpolatedValue(a, i);
    Between(a[b.0], a[b.1], b.2);
    assert a[0] <= a[b.0] && a[b.1] <= a[|a| - 1];
  }

  /** `p = 0` gives the least value and `p = 1` the greatest. */
  lemma PercentileEnds(arr: seq<real>)
    requires arr != []
    ensures Percentile(arr, 0.0).Ok? && Percentile(arr, 1.0).Ok?
    ensures var low := Percentile(arr, 0.0).value; low in arr && forall x :: x in arr ==> low <= x
    ensures var high := Percentile(arr, 1.0).value; high in arr && forall x :: x in arr ==> x <= high
  {
    var a, n := Sort(arr), |arr|;
    SortEnds(arr);
    assert Percentile(arr, 0.0) == Ok(a[0]) by {
      assert Position(n, 0.0) == 0.0;
      var b := Split(n, 0.0);
      assert b.0 == 0 && b.2 == 0.0;
      InterpolatedValue(a, 0.0);
      assert Lerp(a[0], a[b.1], 0.0) == a[0];
    }
    assert Percentile(arr, 1.0) == Ok(a[n - 1]) by {
      var m := (n - 1) as real;
      assert Position(n, 1.0) == m;
      assert Split(n, m) == (n - 1, n - 1, 0.0);
      InterpolatedValue(a, m);
      assert Lerp(a[n - 1], a[n - 1], 0.0) == a[n - 1];
    }
  }

  /** The percentile depends only on the multiset of values, not on their order. */
  lemma PercentileIgnoresOrder(a: seq<real>, b: seq<real>, p: real)
    requires multiset(a) == multiset(b)
    ensures Percentile(a, p) == Percentile(b, p)
  {
    SortedUnique(Sort(a), Sort(b));
    assert |a| == |b| by { assert |multiset(a)| == |multiset(b)|; }
  }

  /** Values already in ascending order are interpolated as they stand. */
  lemma PercentileOfSorted(a: seq<real>, p: real)
    requires a != [] && Sorted(a)
    ensures Percentile(a, p) == Interpolated(a, Position(|a|, p))
  {
    SortedUnique(Sort(a), a);
  }

  /** The median of three ascending values is the middle one. */
  lemma MedianOfThree(s: seq<real>)
    requires |s| == 3 && Sorted(s)
    ensures Percentile(s, 0.5) == Ok(s[1])
  {
    PercentileOfSorted(s, 0.5);
    assert Position(3, 0.5) == 1.0;
    assert Split(3, 1.0) == (1, 2, 0.0) by {
      assert Trunc(1.0) == 1;
    }
  }

  /** The median of two ascending values is their mean. */
  lemma MedianOfTwo(s: seq<real>)
    requires |s| == 2 && Sorted(s)
    ensures Percentile(s, 0.5) == Ok((s[0] + s[1]) / 2.0)
  {
    PercentileOfSorted(s, 0.5);
    assert Position(2, 0.5) == 0.5;
    assert Split(2, 0.5) == (0, 1, 0.5) by {
      assert Trunc(0.5) == 0;
    }
    assert Interpolated(s, 0.5) == Ok(Lerp(s[0], s[1], 0.5));
    assert Lerp(s[0], s[1], 0.5) == (s[0] + s[1]) / 2.0;
  }

  /** Past the end: with two values and `p = 3` the lower index is 3, and `a[lo]` raises `IndexError`. */
  lemma PercentileBeyondEnd(s: seq<real>)
    requires |s| == 2
    ensures Percentile(s, 3.0).Err?
  {
    assert Position(2, 3.0) == 3.0;
    assert Split(2, 3.0).0 == 3 by {
      assert Trunc(3.0) == 3;
    }
  }

  /**
    Below the start: with three values and `p = -0.5` the lower index is -1,
    which Python reads from the end, so the result is the greatest value.
  */
  lemma NegativeFractionWraps(s: seq<real>)
    requires |s| == 3
    ensures Percentile(s, -0.5) == Ok(Sort(s)[2])
  {
    var a := Sort(s);
    assert Position(3, -0.5) == -1.0;
    assert Split(3, -1.0) == (-1, 0, 0.0) by {
      assert Trunc(-1.0) == -1;
    }
    assert PyAt(a, -1) == a[2];
    assert Lerp(a[2], a[0], 0.0) == a[2];
  }

  // ---------------------------------------------------------------------------
  // robust_invoke
  // ---------------------------------------------------------------------------

  /**
    What one call of the model client did: raised an error with a message, or
    returned a response whose `content` may be missing (`None`), measured by the
    clock at `seconds`.
  */
  datatype Attempt = Raised(message: string) | Returned(content: Option<string>, seconds: real)

  /** The error `robust_invoke` hands back: the last exception raised, or `RuntimeError("unexpected")`. */
  datatype Error = Exception(message: string) | Unexpected

  /** What `robust_invoke` returns: the stripped answer, the latency in milliseconds and the error, if any. */
  datatype Reply = Reply(text: string, ms: real, err: Option<Error>)

  /** `str(err)`. */
  function ErrorText(e: Error): string {
    match e
    case Exception(message) => message
    case Unexpected => "unexpected"
  }

  /** The characters for which Python's `str.isspace` holds. */
  predicate IsSpace(c: char) {
    || '\t' <= c <= '\r'
    || '\U{1C}' <= c <= ' '
    || c == '\U{85}' || c == '\U{A0}' || c == '\U{1680}'
    || '\U{2000}' <= c <= '\U{200A}'
    || c == '\U{2028}' || c == '\U{2029}' || c == '\U{202F}' || c == '\U{205F}' || c == '\U{3000}'
  }

  /** The number of leading white-space characters. */
  function LeadingSpace(s: string): (n: nat)
    ensures n <= |s|
    ensures forall k :: 0 <= k < n ==> IsSpace(s[k])
    ensures n < |s| ==> !IsSpace(s[n])
  {
    if s == [] || !IsSpace(s[0]) then 0 else 1 + LeadingSpace(s[1..])
  }

  /** The length of `s` without its trailing white-space characters. */
  function TrailingStart(s: string): (n: nat)
    ensures n <= |s|
    ensures forall k :: n <= k < |s| ==> IsSpace(s[k])
    ensures 0 < n ==> !IsSpace(s[n - 1])
  {
    if s == [] || !IsSpace(s[|s| - 1]) then |s| else TrailingStart(s[..|s| - 1])
  }

  /** `s.strip()`: a contiguous part of `s` that neither starts nor ends with white space, all of whose surroundings are white space. */
  function Strip(s: string): (r: string)
    ensures exists i, j ::
      && 0 <= i <= j <= |s| && r == s[i..j]
      && (forall k :: 0 <= k < i ==> IsSpace(s[k]))
      && (forall k :: j <= k < |s| ==> IsSpace(s[k]))
    ensures r != [] ==> !IsSpace(r[0]) && !IsSpace(r[|r| - 1])
  {
    var i, j := LeadingSpace(s), TrailingStart(s);
    if i < |s| then
      assert i < j;
      s[i..j]
    else
      assert s[|s|..|s|] == [];
      []
  }

  /** Stripping twice is stripping once. */
  lemma StripIdempotent(s: string)
    ensures Strip(Strip(s)) == Strip(s)
  {
    var r := Strip(s);
    if r != [] {
      assert LeadingSpace(r) == 0;
      assert TrailingStart(r) == |r|;
      assert r[0..|r|] == r;
    }
  }

  /** The reply built from a returned response: the stripped content (`""` when there is none) and the elapsed milliseconds. */
  function Received(a: Attempt): (r: Reply)
    requires a.Returned?
    ensures r.err.None? && r.ms == a.seconds * 1000.0
    ensures a.content.None? ==> r.text == ""
    ensures a.content.Some? ==> r.text == Strip(a.content.value)
  {
    Reply(Strip(if a.content.Some? then a.content.value else ""), a.seconds * 1000.0, None)
  }

  /** The first attempt in `[k, tries)` that returned a response, if any. */
  function FirstReturned(llm: nat -> Attempt, k: nat, tries: int): (r: Option<nat>)
    ensures r.Some? ==> k <= r.value < tries && llm(r.value).Returned?
    ensures r.Some? ==> forall j :: k <= j < r.value ==> llm(j).Raised?
    ensures r.None? ==> forall j :: k <= j < tries ==> llm(j).Raised?
    decreases tries - k
  {
    if tries <= k then None
    else if llm(k).Returned? then Some(k)
    else FirstReturned(llm, k + 1, tries)
  }

  /**
    What `robust_invoke` returns when attempt `k` does what `llm(k)` says.
  */
  function Invoke(llm: nat -> Attempt, tries: int): Reply {
    if tries < 1 then Reply("", 0.0, Some(Unexpected))
    else
      match FirstReturned(llm, 0, tries)
      case Some(k) => Received(llm(k))
      case None => Reply("", 0.0, Some(Exception(llm(tries - 1).message)))
  }

  /**
    The first response within `tries` attempts wins; if every attempt raised, the
    last error comes back; with no attempt at all, `RuntimeError("unexpected")`.
  */
  lemma InvokeOutcome(llm: nat -> Attempt, tries: int)
    ensures Invoke(llm, tries).err.None? <==> exists k :: 0 <= k < tries && llm(k).Returned?
    ensures Invoke(llm, tries).err.None? ==> exists k ::
      && 0 <= k < tries && llm(k).Returned?
      && (forall j :: 0 <= j < k ==> llm(j).Raised?) && Invoke(llm, tries) == Received(llm(k))
    ensures 1 <= tries && Invoke(llm, tries).err.Some? ==>
      Invoke(llm, tries) == Reply("", 0.0, Some(Exception(llm(tries - 1).message)))
    ensures tries < 1 ==> Invoke(llm, tries) == Reply("", 0.0, Some(Unexpected))
  {
    if 1 <= tries && FirstReturned(llm, 0, tries).Some? {
      var k := FirstReturned(llm, 0, tries).value;
      assert Invoke(llm, tries) == Received(llm(k));
    }
  }

  /** `backoff ** k`. */
  function Pow(b: real, k: nat): real {
    if k == 0 then 1.0 else b * Pow(b, k - 1)
  }

  /** A power of a non-negative base is non-negative. */
  lemma {:induction false} PowNonNegative(b: real, k: nat)
    requires 0.0 <= b
    ensures 0.0 <= Pow(b, k)
  {
    if k > 0 {
      PowNonNegative(b, k - 1);
    }
  }

  /** What `time.sleep` raises for a negative delay. */
  const SleepError: string := "ValueError: sleep length must be non-negative"

  /**
    The sleep after attempt `k` raises: attempts `0..k` all raised, `k` is not the
    last attempt, and the delay `backoff ** k` is negative.
  */
  predicate SleepRaisesAt(llm: nat -> Attempt, tries: int, backoff: real, k: nat) {
    k < tries - 1 && (forall j :: 0 <= j <= k ==> llm(j).Raised?) && Pow(backoff, k) < 0.0
  }

  /** Some sleep of the retry loop raises, so `robust_invoke` itself raises instead of returning. */
  predicate SleepRaises(llm: nat -> Attempt, tries: int, backoff: real) {
    exists k: nat | k < tries - 1 :: SleepRaisesAt(llm, tries, backoff, k)
  }

  /** A non-negative back-off never makes a sleep raise. */
  lemma NonNegativeBackoffNeverRaises(llm: nat -> Attempt, tries: int, backoff: real)
    requires 0.0 <= backoff
    ensures !SleepRaises(llm, tries, backoff)
  {
    forall k: nat ensures !SleepRaisesAt(llm, tries, backoff, k) {
      PowNonNegative(backoff, k);
    }
  }

  /**
    A negative back-off raises as soon as two attempts fail with a third one left:
    the second sleep is `backoff ** 1`.
  */
  lemma NegativeBackoffRaises(llm: nat -> Attempt, tries: int, backoff: real)
    requires backoff < 0.0 && 3 <= tries && llm(0).Raised? && llm(1).Raised?
    ensures SleepRaises(llm, tries, backoff)
  {
    assert SleepRaisesAt(llm, tries, backoff, 1);
  }

  /**
    `robust_invoke`: calls the client up to `tries` times and returns the first
    response. It also reports how many calls it made and the delays it slept,
    one `backoff ** k` after each failed attempt `k` that is not the last. When
    such a delay is negative, `time.sleep` raises and the `ValueError` leaves
    `robust_invoke`: that is the `Err` outcome.
  */
  method RobustInvoke(llm: nat -> Attempt, tries: int, backoff: real) returns (outcome: Result<Reply>, calls: nat, sleeps: seq<real>)
    ensures outcome.Err? <==> SleepRaises(llm, tries, backoff)
    ensures outcome.Err? ==> outcome.error == SleepError && 1 <= calls && SleepRaisesAt(llm, tries, backoff, calls - 1)
    ensures outcome.Ok? ==> outcome.value == Invoke(llm, tries)
    ensures calls <= Max(tries, 0)
    ensures outcome.Ok? && outcome.value.err.None? ==>
      1 <= calls && llm(calls - 1).Returned? && forall j :: 0 <= j < calls - 1 ==> llm(j).Raised?
    ensures outcome.Ok? && outcome.value.err.Some? ==>
      calls == Max(tries, 0) && forall j :: 0 <= j < calls ==> llm(j).Raised?
    ensures |sleeps| == Max(calls - 1, 0)
    ensures forall k :: 0 <= k < |sleeps| ==> sleeps[k] == Pow(backoff, k) && 0.0 <= sleeps[k]
  {
    sleeps := [];
    var k := 0;
    while k < tries
      invariant 0 <= k && (1 <= tries ==> k < tries) && (tries < 1 ==> k == 0)
      invariant forall j :: 0 <= j < k ==> llm(j).Raised?
      invariant FirstReturned(llm, 0, tries) == FirstReturned(llm, k, tries)
      invariant |sleeps| == k
      invariant forall j :: 0 <= j < k ==> sleeps[j] == Pow(backoff, j) && 0.0 <= sleeps[j]
    {
      calls := k + 1;
      match llm(k) {
        case Returned(_, _) =>
          outcome := Ok(Received(llm(k)));
          forall k': nat ensures !SleepRaisesAt(llm, tries, backoff, k') {
            if k' < tries - 1 && (forall j :: 0 <= j <= k' ==> llm(j).Raised?) {
              assert k' < k && sleeps[k'] == Pow(backoff, k');
            }
          }
          return;
        case Raised(message) =>
          if k == tries - 1 {
            outcome := Ok(Reply("", 0.0, Some(Exception(message))));
            forall k': nat ensures !SleepRaisesAt(llm, tries, backoff, k') {
              if k' < tries - 1 {
                assert sleeps[k'] == Pow(backoff, k');
              }
            }
            return;
          }
          if Pow(backoff, k) < 0.0 {
            assert SleepRaisesAt(llm, tries, backoff, k);
            outcome := Err(SleepError);
            return;
          }
          sleeps := sleeps + [Pow(backoff, k)];
      }
      k := k + 1;
    }
    calls := 0;
    outcome := Ok(Reply("", 0.0, Some(Unexpected)));
  }

  /** With at least one attempt, the fall-through `RuntimeError("unexpected")` is never returned. */
  lemma UnexpectedOnlyWithoutAttempts(llm: nat -> Attempt, tries: int)
    ensures Invoke(llm, tries).err == Some(Unexpected) <==> tries < 1
  {
  }

  // ---------------------------------------------------------------------------
  // main
  // ---------------------------------------------------------------------------

  /** The questions with the reference hint for each. */
  const QA: seq<(string, string)> := [
    ("수하물 규정 알려줘", "대부분 국제선 위탁 23kg 기준이나 항공사별 상이"),
    ("항공권 환불 규정?", "요금제/구매채널/항공사 규정에 따름"),
    ("좌석 업그레이드 가능?", "유료 업그레이드 또는 마일리지, 잔여석 여부"),
    ("기내 반입 규정", "100ml 액체 제한, 날카로운 물품 금지"),
    ("여권 만료 기준", "대개 6개월 이상 잔여기간 요구")
  ]

  /** The attempts per question and the base of the back-off. */
  const Tries: int := 3
  const Backoff: real := 1.5

  /** A score at or above this passes. */
  const PassScore: real := 50.0

  /** Stored answers are cut to this many characters. */
  const AnswerLimit: nat := 300

  /** One row of the results table. */
  datatype Row = Row(question: string, latencyMs: real, matchScore: real, ok: bool, answer: string)

  /**
    The row for one question. An errored call gives zero latency, score 0, a
    failing row and the error text as the answer; otherwise the row passes iff
    the score reaches `PassScore`, and the answer is the first at most
    `AnswerLimit` characters of the response.
  */
  function RowOf(question: string, hint: string, reply: Reply, partialRatio: (string, string) -> real): (row: Row)
    ensures row.question == question
    ensures reply.err.Some? ==>
      && row.latencyMs == 0.0 && row.matchScore == 0.0 && !row.ok
      && row.answer == "ERROR: " + ErrorText(reply.err.value)
    ensures reply.err.None? ==>
      && row.latencyMs == reply.ms
      && row.matchScore == partialRatio(hint, reply.text)
      && (row.ok <==> partialRatio(hint, reply.text) >= PassScore)
      && row.answer <= reply.text && |row.answer| == Min(|reply.text|, AnswerLimit)
  {
    match reply.err
    case Some(e) => Row(question, 0.0, 0.0, false, "ERROR: " + ErrorText(e))
    case None =>
      var score := partialRatio(hint, reply.text);
      Row(question, reply.ms, score, score >= PassScore, reply.text[..Min(|reply.text|, AnswerLimit)])
  }

  /** The replies to the first `n` questions, question `i` answered by the oracle `llm(i)`. */
  function Replies(llm: nat -> nat -> Attempt, n: nat): (rs: seq<Reply>)
    ensures |rs| == n
  {
    seq(n, i requires 0 <= i => Invoke(llm(i), Tries))
  }

  /** The rows `main` builds from the questions and their replies, in order. */
  function RowsOf(qa: seq<(string, string)>, rs: seq<Reply>, partialRatio: (string, string) -> real): (rows: seq<Row>)
    requires |qa| == |rs|
    ensures |rows| == |rs|
    ensures forall i :: 0 <= i < |rs| ==> rows[i] == RowOf(qa[i].0, qa[i].1, rs[i], partialRatio)
  {
    if rs == [] then []
    else
      var n := |rs| - 1;
      RowsOf(qa[..n], rs[..n], partialRatio) + [RowOf(qa[n].0, qa[n].1, rs[n], partialRatio)]
  }

  /** The number of replies that carry an error. */
  function CountErrors(rs: seq<Reply>): (n: nat)
    ensures n <= |rs|
    ensures n == 0 <==> forall i :: 0 <= i < |rs| ==> rs[i].err.None?
  {
    if rs == [] then 0
    else CountErrors(rs[..|rs| - 1]) + (if rs[|rs| - 1].err.Some? then 1 else 0)
  }

  /** The latencies of the replies without an error, in order. */
  function Latencies(rs: seq<Reply>): (lats: seq<real>)
    ensures |lats| == |rs| - CountErrors(rs)
  {
    if rs == [] then []
    else
      var last := rs[|rs| - 1];
      Latencies(rs[..|rs| - 1]) + (if last.err.None? then [last.ms] else [])
  }

  /** Every recorded latency is that of a reply without an error. */
  lemma {:induction false} LatenciesFromSuccesses(rs: seq<Reply>)
    ensures forall x :: x in Latencies(rs) ==> exists i :: 0 <= i < |rs| && rs[i].err.None? && rs[i].ms == x
  {
    if rs != [] {
      var n := |rs| - 1;
      LatenciesFromSuccesses(rs[..n]);
      forall x | x in Latencies(rs) ensures exists i :: 0 <= i < |rs| && rs[i].err.None? && rs[i].ms == x {
        if x in Latencies(rs[..n]) {
          var i :| 0 <= i < n && rs[..n][i].err.None? && rs[..n][i].ms == x;
          assert rs[i] == rs[..n][i];
        } else {
          assert rs[n].err.None? && rs[n].ms == x;
        }
      }
    }
  }

  /** Answering one more question adds that reply's latency, if it has one. */
  lemma LatenciesStep(llm: nat -> nat -> Attempt, i: nat)
    ensures var reply := Invoke(llm(i), Tries);
      Latencies(Replies(llm, i + 1)) == Latencies(Replies(llm, i)) + (if reply.err.None? then [reply.ms] else [])
  {
    var rs := Replies(llm, i + 1);
    assert rs[..|rs| - 1] == Replies(llm, i);
  }

  /** The number of passing rows. */
  function CountOk(rows: seq<Row>): (n: nat)
    ensures n <= |rows|
    ensures n == |rows| <==> forall i :: 0 <= i < |rows| ==> rows[i].ok
  {
    if rows == [] then 0
    else CountOk(rows[..|rows| - 1]) + (if rows[|rows| - 1].ok then 1 else 0)
  }

  /** A count over a positive total no smaller than it is a fraction in [0, 1], and 1 exactly when they agree. */
  lemma Fraction(c: real, d: real)
    requires 0.0 <= c <= d && 0.0 < d
    ensures 0.0 <= c / d <= 1.0
    ensures c / d == 1.0 <==> c == d
  {
    var q := c / d;
    assert q * d == c;
    assert q > 1.0 ==> (q - 1.0) * d > 0.0;
    assert q < 0.0 ==> -q * d > 0.0;
  }

  /** `pass_ratio`, before rounding: passing rows over `max(len(rows), 1)`. */
  function PassRatio(rows: seq<Row>): (r: real)
    ensures 0.0 <= r <= 1.0
    ensures rows == [] ==> r == 0.0
    ensures r == 1.0 <==> rows != [] && CountOk(rows) == |rows|
  {
    var d := Max(|rows|, 1) as real;
    var c := CountOk(rows) as real;
    Fraction(c, d);
    c / d
  }

  /** Answering one more question adds that question's row. */
  lemma RowsStep(qa: seq<(string, string)>, llm: nat -> nat -> Attempt, partialRatio: (string, string) -> real, i: nat)
    requires i < |qa|
    ensures RowsOf(qa[..i + 1], Replies(llm, i + 1), partialRatio)
      == RowsOf(qa[..i], Replies(llm, i), partialRatio) + [RowOf(qa[i].0, qa[i].1, Invoke(llm(i), Tries), partialRatio)]
  {
    assert qa[..i + 1][..i] == qa[..i];
    assert Replies(llm, i + 1)[..i] == Replies(llm, i);
  }

  /** Only a reply without an error can make a row pass, so no more rows pass than there are latencies. */
  lemma {:induction false} PassingRowsHaveLatencies(qa: seq<(string, string)>, rs: seq<Reply>, partialRatio: (string, string) -> real)
    requires |qa| == |rs|
    ensures CountOk(RowsOf(qa, rs, partialRatio)) <= |Latencies(rs)|
  {
    if rs != [] {
      var n := |rs| - 1;
      var rows := RowsOf(qa, rs, partialRatio);
      PassingRowsHaveLatencies(qa[..n], rs[..n], partialRatio);
      assert rows[..n] == RowsOf(qa[..n], rs[..n], partialRatio);
      assert rows[n] == RowOf(qa[n].0, qa[n].1, rs[n], partialRatio);
    }
  }

  /**
    One pass of `main`'s loop: ask the question through `robust_invoke`, build
    its row, and give the latency to record (none when the call failed).
  */
  method Ask(q: string, hint: string, llm: nat -> Attempt, partialRatio: (string, string) -> real)
    returns (row: Row, lat: seq<real>)
    ensures row == RowOf(q, hint, Invoke(llm, Tries), partialRatio)
    ensures lat == if Invoke(llm, Tries).err.None? then [Invoke(llm, Tries).ms] else []
  {
    var outcome, _, _ := RobustInvoke(llm, Tries, Backoff);
    NonNegativeBackoffNeverRaises(llm, Tries, Backoff);
    var reply := outcome.value;
    if reply.err.Some? {
      row := Row(q, 0.0, 0.0, false, "ERROR: " + ErrorText(reply.err.value));
      lat := [];
      return;
    }
    var score := partialRatio(hint, reply.text);
    var ok := score >= PassScore;
    row := Row(q, reply.ms, score, ok, reply.text[..Min(|reply.text|, AnswerLimit)]);
    lat := [reply.ms];
  }

  /** The `sum(1 for r in rows if r["ok"])` count of `main`, as a loop. */
  method CountPassing(rows: seq<Row>) returns (passed: nat)
    ensures passed == CountOk(rows)
  {
    passed := 0;
    for i := 0 to |rows|
      invariant passed == CountOk(rows[..i])
    {
      assert rows[..i + 1][..i] == rows[..i];
      if rows[i].ok {
        passed := passed + 1;
      }
    }
    assert rows[..|rows|] == rows;
  }

  /**
    `main`'s loop over the questions: one row per question, and the latency of
    every call that succeeded, in order. Question `i` is answered by the oracle
    `llm(i)` and scored by `partialRatio`.
  */
  method AskAll(qa: seq<(string, string)>, llm: nat -> nat -> Attempt, partialRatio: (string, string) -> real)
    returns (rows: seq<Row>, lats: seq<real>)
    ensures rows == RowsOf(qa, Replies(llm, |qa|), partialRatio)
    ensures lats == Latencies(Replies(llm, |qa|))
  {
    rows, lats := [], [];
    for i := 0 to |qa|
      invariant rows == RowsOf(qa[..i], Replies(llm, i), partialRatio)
      invariant lats == Latencies(Replies(llm, i))
    {
      var row, lat := Ask(qa[i].0, qa[i].1, llm(i), partialRatio);
      LatenciesStep(llm, i);
      RowsStep(qa, llm, partialRatio, i);
      rows := rows + [row];
      lats := lats + lat;
    }
    assert qa[..|qa|] == qa;
  }

  /**
    `main`, less the file and console output: the rows and latencies of the
    loop over the five questions of `QA`, the pass ratio, and the 50th and 95th
    percentiles of the latencies (`0.0` when there are none).
  */
  method Evaluate(llm: nat -> nat -> Attempt, partialRatio: (string, string) -> real)
    returns (rows: seq<Row>, lats: seq<real>, passRatio: real, p50: real, p95: real)
    ensures |rows| == 5
    ensures forall i :: 0 <= i < 5 ==> rows[i].question == QA[i].0
    ensures rows == RowsOf(QA, Replies(llm, |QA|), partialRatio)
    ensures lats == Latencies(Replies(llm, |QA|))
    ensures |lats| == |QA| - CountErrors(Replies(llm, |QA|))
    ensures passRatio == PassRatio(rows)
    ensures CountOk(rows) <= |lats|
    ensures p50 == if lats == [] then 0.0 else Percentile(lats, 0.5).value
    ensures p95 == if lats == [] then 0.0 else Percentile(lats, 0.95).value
  {
    rows, lats := AskAll(QA, llm, partialRatio);
    PassingRowsHaveLatencies(QA, Replies(llm, |QA|), partialRatio);
    var passed := CountPassing(rows);
    passRatio := passed as real / Max(|rows|, 1) as real;
    p50 := if lats == [] then 0.0 else Percentile(lats, 0.5).value;
    p95 := if lats == [] then 0.0 else Percentile(lats, 0.95).value;
  }
}
