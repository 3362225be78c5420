/**
 The marker run-length code, over tokens of any width: what it writes, how it is read,
 its round trip and its exact worst case.
 */
module Rle {
  import opened Arithmetic
  import opened Bytes

  /** A token width, given by its largest value, and the token reserved as marker. */
  datatype Alphabet = Alphabet(max: nat, marker: nat) {
    predicate Valid() {
      3 <= max && marker <= max
    }
  }

  // ---------- Writing ----------

  /** A run of `n` tokens: markers are always escaped, one or two other tokens never are. */
  function Write(a: Alphabet, token: nat, n: nat): seq<nat> {
    if token == a.marker then [a.marker, a.marker, n]
    else if n == 2 then [token, token]
    else if n == 1 then [token]
    else if n == 0 then []
    else [a.marker, token, n]
  }

  /** The output for `xs` when the last `same` tokens seen were all `last`; counters saturate at the largest token. */
  function Encode(a: Alphabet, last: nat, same: nat, xs: seq<nat>): seq<nat>
    decreases |xs|
  {
    if xs == [] then Write(a, last, same)
    else if xs[0] == last && same != a.max then Encode(a, last, same + 1, xs[1..])
    else Write(a, last, same) + Encode(a, xs[0], 1, xs[1..])
  }

  function Compress(a: Alphabet, xs: seq<nat>): seq<nat> {
    if xs == [] then [] else Encode(a, xs[0], 1, xs[1..])
  }

  // ---------- Reading ----------

  /** A reader: the token being repeated, how often still, and the stream not yet read. */
  datatype Reader = Reader(token: nat, left: nat, rest: seq<nat>)

  /** Reads one token. None when the stream ends too early; a zero count wraps around. */
  function Read(a: Alphabet, r: Reader): Option<Reader> {
    if r.left > 0 then Some(r.(left := r.left - 1))
    else if r.rest == [] then None
    else if r.rest[0] != a.marker then Some(Reader(r.rest[0], 0, r.rest[1..]))
    else if |r.rest| < 3 then None
    else Some(Reader(r.rest[1], if r.rest[2] == 0 then a.max else r.rest[2] - 1, r.rest[3..]))
  }

  /** Reads `n` tokens: the tokens and the reader afterwards. */
  function Decode(a: Alphabet, r: Reader, n: nat): (d: Option<(seq<nat>, Reader)>)
    ensures d.Some? ==> |d.value.0| == n
    ensures n == 0 ==> d == Some(([], r))
    decreases n
  {
    if n == 0 then Some(([], r))
    else
      match Read(a, r)
      case None => None
      case Some(r') =>
        match Decode(a, r', n - 1)
        case None => None
        case Some((xs, end)) => Some(([r'.token] + xs, end))
  }

  // ---------- Round trip ----------

  function Repeat(token: nat, n: nat): (r: seq<nat>)
    ensures |r| == n
  {
    if n == 0 then [] else [token] + Repeat(token, n - 1)
  }

  lemma {:induction false} RepeatMore(token: nat, n: nat, xs: seq<nat>)
    ensures Repeat(token, n + 1) + xs == Repeat(token, n) + ([token] + xs)
  {
    if n > 0 {
      RepeatMore(token, n - 1, xs);
      assert Repeat(token, n + 1) + xs == [token] + (Repeat(token, n) + xs);
    }
  }

  /** The tokens left of a run come first, whatever follows. */
  lemma {:induction false} DrainRun(a: Alphabet, r: Reader, m: nat, xs: seq<nat>, end: Reader)
    requires Decode(a, r.(left := 0), m) == Some((xs, end))
    ensures Decode(a, r, r.left + m) == Some((Repeat(r.token, r.left) + xs, end))
    decreases r.left
  {
    if r.left > 0 {
      DrainRun(a, r.(left := r.left - 1), m, xs, end);
      assert Repeat(r.token, r.left) + xs == [r.token] + (Repeat(r.token, r.left - 1) + xs);
    } else {
      assert Repeat(r.token, 0) + xs == xs;
    }
  }

  /** An escaped triple reads back as its count of tokens. */
  lemma {:induction false} EscapedReadsBack(a: Alphabet, token: nat, n: nat, rest: seq<nat>, before: nat, m: nat,
                          xs: seq<nat>, end: Reader)
    requires 1 <= n && Decode(a, Reader(token, 0, rest), m) == Some((xs, end))
    ensures Decode(a, Reader(before, 0, [a.marker, token, n] + rest), n + m) == Some((Repeat(token, n) + xs, end))
  {
    var s := [a.marker, token, n] + rest;
    assert s[3..] == rest;
    assert Read(a, Reader(before, 0, s)) == Some(Reader(token, n - 1, rest));
    DrainRun(a, Reader(token, n - 1, rest), m, xs, end);
    assert Repeat(token, n) + xs == [token] + (Repeat(token, n - 1) + xs);
  }

  /** A count of zero, which is never written, stands for one token more than the largest count. */
  lemma {:induction false} ZeroCount(a: Alphabet, token: nat)
    ensures Decode(a, Reader(0, 0, [a.marker, token, 0]), a.max + 1)
         == Some((Repeat(token, a.max + 1), Reader(token, 0, [])))
  {
    var s := [a.marker, token, 0];
    assert s[3..] == [];
    assert Read(a, Reader(0, 0, s)) == Some(Reader(token, a.max, []));
    DrainRun(a, Reader(token, a.max, []), 0, [], Reader(token, 0, []));
    assert Repeat(token, a.max) + [] == Repeat(token, a.max);
  }

  lemma {:induction false} SingleReadsBack(a: Alphabet, token: nat, rest: seq<nat>, before: nat, m: nat,
                          xs: seq<nat>, end: Reader)
    requires token != a.marker && Decode(a, Reader(token, 0, rest), m) == Some((xs, end))
    ensures Decode(a, Reader(before, 0, [token] + rest), 1 + m) == Some(([token] + xs, end))
  {
    assert ([token] + rest)[1..] == rest;
  }

  /** A written run reads back as `n` tokens and leaves the reader at what follows it. */
  lemma {:induction false} RunReadsBack(a: Alphabet, token: nat, n: nat, rest: seq<nat>, before: nat, m: nat,
                          xs: seq<nat>, end: Reader)
    requires 1 <= n
    requires Decode(a, Reader(token, 0, rest), m) == Some((xs, end))
    ensures Decode(a, Reader(before, 0, Write(a, token, n) + rest), n + m) == Some((Repeat(token, n) + xs, end))
  {
    hide Decode;
    if token == a.marker || n > 2 {
      EscapedReadsBack(a, token, n, rest, before, m, xs, end);
    } else {
      SingleReadsBack(a, token, rest, if n == 1 then before else token, m, xs, end);
      if n == 1 {
        assert Repeat(token, 1) + xs == [token] + xs;
      } else {
        SingleReadsBack(a, token, [token] + rest, before, 1 + m, [token] + xs, end);
        assert [token, token] + rest == [token] + ([token] + rest);
        assert Repeat(token, 2) + xs == [token] + ([token] + xs);
      }
    }
  }

  function Final(last: nat, xs: seq<nat>): nat {
    if xs == [] then last else xs[|xs| - 1]
  }

  lemma {:induction false} EncodeDecodes(a: Alphabet, last: nat, same: nat, xs: seq<nat>, rest: seq<nat>, before: nat)
    requires 1 <= same
    ensures Decode(a, Reader(before, 0, Encode(a, last, same, xs) + rest), same + |xs|)
         == Some((Repeat(last, same) + xs, Reader(Final(last, xs), 0, rest)))
    decreases |xs|
  {
    hide Write, Decode;
    if xs == [] {
      RunReadsBack(a, last, same, rest, before, 0, [], Reader(last, 0, rest));
    } else if xs[0] == last && same != a.max {
      EncodeDecodes(a, last, same + 1, xs[1..], rest, before);
      RepeatMore(last, same, xs[1..]);
      assert xs == [last] + xs[1..];
    } else {
      assert Encode(a, last, same, xs) == Write(a, last, same) + Encode(a, xs[0], 1, xs[1..]);
      assert Repeat(xs[0], 1) + xs[1..] == xs;
      var more := Encode(a, xs[0], 1, xs[1..]) + rest;
      EncodeDecodes(a, xs[0], 1, xs[1..], rest, last);
      RunReadsBack(a, last, same, more, before, |xs|, xs, Reader(Final(last, xs), 0, rest));
      assert Encode(a, last, same, xs) + rest == Write(a, last, same) + more;
    }
  }

  /** Reading as many tokens as were compressed gives them back and ends exactly at the end of the stream. */
  lemma {:induction false} RoundTrip(a: Alphabet, xs: seq<nat>, rest: seq<nat>)
    ensures Decode(a, Reader(0, 0, Compress(a, xs) + rest), |xs|) == Some((xs, Reader(Final(0, xs), 0, rest)))
  {
    if xs == [] {
      assert [] + rest == rest;
    } else {
      EncodeDecodes(a, xs[0], 1, xs[1..], rest, 0);
      assert Repeat(xs[0], 1) + xs[1..] == xs;
    }
  }

  // ---------- What may appear in the output ----------

  /** Tokens fit their width, and every marker begins a triple with a count that is not zero. */
  predicate Escaped(a: Alphabet, s: seq<nat>)
    decreases |s|
  {
    s == [] ||
    (s[0] <= a.max &&
     if s[0] != a.marker then Escaped(a, s[1..])
     else |s| >= 3 && s[1] <= a.max && 1 <= s[2] <= a.max && Escaped(a, s[3..]))
  }

  predicate Within(a: Alphabet, xs: seq<nat>) {
    forall i :: 0 <= i < |xs| ==> xs[i] <= a.max
  }

  /** Written output is always well formed. */
  lemma {:induction false} EncodeEscapes(a: Alphabet, last: nat, same: nat, xs: seq<nat>)
    requires a.Valid() && last <= a.max && 1 <= same <= a.max && Within(a, xs)
    ensures Escaped(a, Encode(a, last, same, xs))
    decreases |xs|
  {
    if xs == [] {
      RunEscapes(a, last, same, []);
      assert Write(a, last, same) + [] == Write(a, last, same);
    } else if xs[0] == last && same != a.max {
      EncodeEscapes(a, last, same + 1, xs[1..]);
    } else {
      EncodeEscapes(a, xs[0], 1, xs[1..]);
      RunEscapes(a, last, same, Encode(a, xs[0], 1, xs[1..]));
    }
  }

  lemma {:induction false} RunEscapes(a: Alphabet, token: nat, n: nat, rest: seq<nat>)
    requires a.Valid() && token <= a.max && 1 <= n <= a.max && Escaped(a, rest)
    ensures Escaped(a, Write(a, token, n) + rest)
  {
    var s := Write(a, token, n) + rest;
    if token == a.marker || n > 2 {
      assert s[3..] == rest;
    } else if n == 1 {
      assert s[1..] == rest;
    } else {
      assert s[1..] == [token] + rest && s[1..][1..] == rest;
    }
  }

  // ---------- The exact size ----------

  /** How many tokens at the beginning of `xs` are `token`. */
  function Leading(token: nat, xs: seq<nat>): (n: nat)
    ensures n <= |xs|
  {
    if xs == [] || xs[0] != token then 0 else 1 + Leading(token, xs[1..])
  }

  /** What an unbroken run of `n` tokens costs: three for each full counter, and its rest. */
  function RunCost(a: Alphabet, token: nat, n: nat): nat
    requires a.Valid()
  {
    var rest := n % a.max;
    3 * (n / a.max) + if rest > 2 || (rest > 0 && token == a.marker) then 3 else rest
  }

  /** What tokens cost, run by run. */
  function Cost(a: Alphabet, xs: seq<nat>): nat
    requires a.Valid()
    decreases |xs|
  {
    if xs == [] then 0
    else
      var n := 1 + Leading(xs[0], xs[1..]);
      RunCost(a, xs[0], n) + Cost(a, xs[n..])
  }

  lemma {:induction false} RunCostIs(a: Alphabet, token: nat, n: nat)
    requires a.Valid() && 1 <= n
    ensures n <= a.max ==> RunCost(a, token, n) == |Write(a, token, n)|
    ensures RunCost(a, token, a.max + n) == |Write(a, token, a.max)| + RunCost(a, token, n)
  {
    DivideStep(n, a.max);
    DivideUnique(a.max, a.max, 1, 0);
    var q, r := n / a.max, n % a.max;
    assert a.max + n == a.max * (q + 1) + r;
    DivideUnique(a.max + n, a.max, q + 1, r);
    if n < a.max {
      DivideUnique(n, a.max, 0, n);
    } else if n == a.max {
      DivideUnique(n, a.max, 1, 0);
    }
  }

  lemma {:induction false} CostStep(a: Alphabet, token: nat, xs: seq<nat>)
    requires a.Valid()
    ensures xs != [] && xs[0] == token ==>
              Leading(token, xs) == 1 + Leading(token, xs[1..])
              && xs[Leading(token, xs)..] == xs[1..][Leading(token, xs[1..])..]
    ensures xs == [] || xs[0] != token ==> Leading(token, xs) == 0 && xs[0..] == xs
    ensures xs == [] ==> Cost(a, xs[Leading(token, xs)..]) == 0
    ensures xs != [] ==>
              var r := Leading(xs[0], xs[1..]);
              Cost(a, xs) == RunCost(a, xs[0], 1 + r) + Cost(a, xs[1..][r..])
  {
    hide RunCost;
    if xs != [] {
      ShiftBy(xs, 1, Leading(xs[0], xs[1..]));
    }
  }

  lemma {:induction false} ShiftBy(xs: seq<nat>, i: nat, j: nat)
    requires i + j <= |xs|
    ensures xs[i..][j..] == xs[i + j..]
  {
  }

  lemma {:induction false} EncodeStep(a: Alphabet, last: nat, same: nat, xs: seq<nat>)
    ensures |Encode(a, last, same, xs)| ==
            if xs == [] then |Write(a, last, same)|
            else if xs[0] == last && same != a.max then |Encode(a, last, same + 1, xs[1..])|
            else |Write(a, last, same)| + |Encode(a, xs[0], 1, xs[1..])|
  {
    hide Write;
  }

  /** The open run is lengthened by the tokens that continue it, and what is behind them is counted by runs. */
  lemma {:induction false} EncodeCost(a: Alphabet, last: nat, same: nat, xs: seq<nat>)
    requires a.Valid() && 1 <= same <= a.max
    ensures var r := Leading(last, xs);
            |Encode(a, last, same, xs)| == RunCost(a, last, same + r) + Cost(a, xs[r..])
    decreases |xs|
  {
    hide Write, RunCost, Encode, Leading, Cost;
    EncodeStep(a, last, same, xs);
    RunCostIs(a, last, same);
    CostStep(a, last, xs);
    if xs == [] {
    } else if xs[0] != last {
      EncodeCost(a, xs[0], 1, xs[1..]);
    } else if same != a.max {
      EncodeCost(a, last, same + 1, xs[1..]);
    } else {
      EncodeCost(a, last, 1, xs[1..]);
      RunCostIs(a, last, 1 + Leading(last, xs[1..]));
    }
  }

  /** The size is the cost of the maximal runs, however they are found. */
  lemma {:induction false} CompressCost(a: Alphabet, xs: seq<nat>)
    requires a.Valid()
    ensures |Compress(a, xs)| == Cost(a, xs)
  {
    hide RunCost;
    if xs != [] {
      EncodeCost(a, xs[0], 1, xs[1..]);
      CostStep(a, xs[0], xs);
    }
  }

  /** Only markers make tokens grow. */
  lemma {:induction false} EncodeWithoutMarkers(a: Alphabet, last: nat, same: nat, xs: seq<nat>)
    requires a.Valid() && a.marker != last && a.marker !in xs && 1 <= same
    ensures |Encode(a, last, same, xs)| <= same + |xs|
    decreases |xs|
  {
    hide Encode;
    EncodeStep(a, last, same, xs);
    if xs != [] {
      if xs[0] == last && same != a.max {
        EncodeWithoutMarkers(a, last, same + 1, xs[1..]);
      } else {
        EncodeWithoutMarkers(a, xs[0], 1, xs[1..]);
      }
    }
  }

  // ---------- The exact worst case ----------

  /** At most two tokens each, plus one when there is an odd number of them and a marker comes first. */
  lemma {:induction false} EncodeSize(a: Alphabet, last: nat, same: nat, xs: seq<nat>)
    requires a.Valid() && 1 <= same <= a.max
    ensures var n := same + |xs|;
            |Encode(a, last, same, xs)| <= 2 * n + (if last == a.marker then n % 2 else -(n % 2))
    decreases |xs|
  {
    if xs == [] {
    } else if xs[0] == last && same != a.max {
      EncodeSize(a, last, same + 1, xs[1..]);
    } else {
      EncodeSize(a, xs[0], 1, xs[1..]);
    }
  }

  /** Markers at even positions, other tokens at odd ones, starting with a marker or not. */
  predicate Alternates(a: Alphabet, xs: seq<nat>, markerFirst: bool) {
    forall i :: 0 <= i < |xs| ==> (xs[i] == a.marker <==> (i % 2 == 0) == markerFirst)
  }

  lemma {:induction false} AlternatesFrom(a: Alphabet, x: nat, xs: seq<nat>, markerFirst: bool)
    ensures Alternates(a, [x] + xs, markerFirst)
       <==> ((x == a.marker) == markerFirst && Alternates(a, xs, !markerFirst))
  {
    var s := [x] + xs;
    if Alternates(a, s, markerFirst) {
      assert s[0] == x;
      forall i | 0 <= i < |xs| ensures xs[i] == a.marker <==> (i % 2 == 0) == !markerFirst {
        assert s[i + 1] == xs[i];
      }
    }
  }

  /** The bound is met with the surplus token only by tokens that alternate between marker and non-marker. */
  lemma {:induction false} EncodeWorst(a: Alphabet, last: nat, same: nat, xs: seq<nat>)
    requires a.Valid() && 1 <= same <= a.max
    requires (same + |xs|) % 2 == if last == a.marker then 1 else 0
    ensures |Encode(a, last, same, xs)| == 2 * (same + |xs|) + (if last == a.marker then 1 else 0)
            <==> same == 1 && Alternates(a, [last] + xs, last == a.marker)
    decreases |xs|
  {
    var first := last == a.marker;
    AlternatesFrom(a, last, xs, first);
    if xs != [] {
      var rest := xs[1..];
      assert xs == [xs[0]] + rest;
      AlternatesFrom(a, xs[0], rest, !first);
      if xs[0] == last && same != a.max {
        EncodeSize(a, last, same + 1, rest);
        EncodeWorst(a, last, same + 1, rest);
      } else {
        EncodeSize(a, xs[0], 1, rest);
        if same == 1 && (xs[0] == a.marker) != first {
          EncodeWorst(a, xs[0], 1, rest);
        }
      }
    }
  }

  /** `n` tokens never encode to more than 2n + (n mod 2). */
  lemma {:induction false} CompressSize(a: Alphabet, xs: seq<nat>)
    requires a.Valid()
    ensures |Compress(a, xs)| <= 2 * |xs| + |xs| % 2
  {
    if xs != [] {
      EncodeSize(a, xs[0], 1, xs[1..]);
    }
  }

  /**
   Twice the input is exceeded exactly by an odd number of tokens in which markers
   alternate with other tokens, and then by one token.
   */
  lemma {:induction false} TwiceIsExceeded(a: Alphabet, xs: seq<nat>)
    requires a.Valid()
    ensures |Compress(a, xs)| > 2 * |xs| <==> |xs| % 2 == 1 && Alternates(a, xs, true)
  {
    if xs != [] {
      assert xs == [xs[0]] + xs[1..];
      EncodeSize(a, xs[0], 1, xs[1..]);
      if |xs| % 2 == 1 && xs[0] == a.marker {
        EncodeWorst(a, xs[0], 1, xs[1..]);
      }
    }
  }

  /** The bound 2n + (n mod 2) is reached for every odd `n`. */
  lemma {:induction false} BoundIsReached(a: Alphabet, other: nat, n: nat)
    requires a.Valid() && other != a.marker && n % 2 == 1
    ensures var xs := seq(n, i => if i % 2 == 0 then a.marker else other);
            |Compress(a, xs)| == 2 * n + 1
  {
    var xs := seq(n, i => if i % 2 == 0 then a.marker else other);
    TwiceIsExceeded(a, xs);
    CompressSize(a, xs);
  }

  // ---------- When twice the input is reached ----------

  /** No two markers next to each other. */
  predicate Separated(a: Alphabet, xs: seq<nat>) {
    forall i :: 0 < i < |xs| ==> xs[i - 1] != a.marker || xs[i] != a.marker
  }

  lemma {:induction false} SeparatedFrom(a: Alphabet, x: nat, xs: seq<nat>)
    ensures Separated(a, [x] + xs)
       <==> Separated(a, xs) && (x == a.marker && xs != [] ==> xs[0] != a.marker)
  {
    var s := [x] + xs;
    assert forall i :: 0 < i < |s| ==> s[i] == xs[i - 1];
    if Separated(a, s) {
      assert xs != [] ==> s[1 - 1] != a.marker || s[1] != a.marker;
      forall i | 0 < i < |xs| ensures xs[i - 1] != a.marker || xs[i] != a.marker {
        assert s[i + 1 - 1] != a.marker || s[i + 1] != a.marker;
      }
    }
  }

  function Markers(a: Alphabet, xs: seq<nat>): nat {
    if xs == [] then 0 else (if xs[0] == a.marker then 1 else 0) + Markers(a, xs[1..])
  }

  /** Markers less other tokens, when an open run of `same` tokens `last` comes before `xs`. */
  function Surplus(a: Alphabet, last: nat, same: nat, xs: seq<nat>): int {
    (if last == a.marker then same as int else 0 - same as int) + (2 * Markers(a, xs) - |xs|)
  }

  predicate RunSeparated(a: Alphabet, last: nat, same: nat, xs: seq<nat>) {
    Separated(a, xs) && (last == a.marker ==> same == 1 && (xs == [] || xs[0] != a.marker))
  }

  /**
   Markers cost three, other tokens at most one each; what long runs save is never made up
   for. So twice the input, or one less behind a token that is no marker, is reached exactly
   when single markers are at least as many as the others, and then the cost is exact.
   */
  lemma {:induction false} EncodeSurplus(a: Alphabet, last: nat, same: nat, xs: seq<nat>)
    requires a.Valid() && 1 <= same <= a.max
    ensures var excess := |Encode(a, last, same, xs)| - 2 * (same + |xs|);
            var least := if last == a.marker then 0 else -1;
            && (excess >= least <==> RunSeparated(a, last, same, xs) && Surplus(a, last, same, xs) >= least)
            && (excess >= least ==> excess == Surplus(a, last, same, xs))
    decreases |xs|
  {
    if xs != [] {
      var rest := xs[1..];
      assert xs == [xs[0]] + rest;
      SeparatedFrom(a, xs[0], rest);
      if xs[0] == last && same != a.max {
        EncodeSize(a, last, same + 1, rest);
        EncodeSurplus(a, last, same + 1, rest);
      } else {
        EncodeSize(a, xs[0], 1, rest);
        EncodeSurplus(a, xs[0], 1, rest);
      }
    }
  }

  /** Twice the input is reached exactly by tokens of which at least half are markers, no two of them adjacent. */
  lemma {:induction false} TwiceIsReached(a: Alphabet, xs: seq<nat>)
    requires a.Valid()
    ensures |Compress(a, xs)| >= 2 * |xs| <==> Separated(a, xs) && 2 * Markers(a, xs) >= |xs|
  {
    if xs != [] {
      assert xs == [xs[0]] + xs[1..];
      SeparatedFrom(a, xs[0], xs[1..]);
      EncodeSurplus(a, xs[0], 1, xs[1..]);
    }
  }

  lemma {:induction false} AlternatesMarkers(a: Alphabet, xs: seq<nat>, markerFirst: bool)
    requires Alternates(a, xs, markerFirst)
    ensures Separated(a, xs)
    ensures 2 * Markers(a, xs) == |xs| + if |xs| % 2 == 0 then 0 else if markerFirst then 1 else -1
    decreases |xs|
  {
    if xs != [] {
      var rest := xs[1..];
      assert xs == [xs[0]] + rest;
      AlternatesFrom(a, xs[0], rest, markerFirst);
      AlternatesMarkers(a, rest, !markerFirst);
      SeparatedFrom(a, xs[0], rest);
    }
  }

  /** Alternating tokens double, but for one token more or less when there is an odd number of them. */
  lemma {:induction false} AlternatesSize(a: Alphabet, xs: seq<nat>, markerFirst: bool)
    requires a.Valid() && Alternates(a, xs, markerFirst)
    ensures |Compress(a, xs)| == 2 * |xs| + if |xs| % 2 == 0 then 0 else if markerFirst then 1 else -1
  {
    hide Encode, Separated;
    if xs != [] {
      assert xs == [xs[0]] + xs[1..];
      AlternatesMarkers(a, xs, markerFirst);
      SeparatedFrom(a, xs[0], xs[1..]);
      EncodeSurplus(a, xs[0], 1, xs[1..]);
    }
  }

  /** The shortest example: one marker byte becomes three, one more than twice its size. */
  lemma {:induction false} OneMarker()
    ensures Compress(Alphabet(0xff, 0x42), [0x42]) == [0x42, 0x42, 1]
  {
  }
}
