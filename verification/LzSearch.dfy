/**
 The greedy match search of the four LZ77 encoders, as a function: FastLZ at both
 levels, LZF in C and LZF in C#. They share one shape (look a position up in a hash
 table, take the match or one literal, refresh the table at the two positions before
 the end of a match) and differ in where the search stops, which candidates they
 accept and how far a match may reach.

 Hash values only ever choose a table slot, so they are an arbitrary function of the
 position; the slot is the value modulo the table size.
 */
module LzSearch {
  import opened Bytes
  import opened LzFormat

  datatype Policy = FastLz1 | FastLz2 | Lzf | Clzf

  const MAX_REF := 264

  function Wire(pol: Policy): Format {
    if pol.FastLz2? then Extended else Short
  }

  function Max(a: int, b: int): int { if a < b then b else a }
  function Min(a: int, b: int): int { if a < b then a else b }

  // ---------- Match lengths ----------

  /** The first position from `q` on where `x` stops repeating itself at distance `dist`, but at most `bound`. */
  function Stretch(x: seq<byte>, dist: pos, q: nat, bound: nat): (r: nat)
    requires dist <= q <= bound <= |x|
    ensures q <= r <= bound && Repeats(x, dist, q, r)
    ensures r < bound ==> x[r] != x[r - dist]
    decreases bound - q
  {
    if q == bound || x[q] != x[q - dist] then q else Stretch(x, dist, q + 1, bound)
  }

  lemma {:induction false} StretchUnique(x: seq<byte>, dist: pos, q: nat, bound: nat, r: nat)
    requires dist <= q <= r <= bound <= |x| && Repeats(x, dist, q, r)
    requires r < bound ==> x[r] != x[r - dist]
    ensures Stretch(x, dist, q, bound) == r
    decreases r - q
  {
    if q < r {
      StretchUnique(x, dist, q + 1, bound, r);
    }
  }

  /** The encoder looks for matches only before this position. */
  function SearchEnd(pol: Policy, n: nat): int {
    if pol.FastLz1? || pol.FastLz2? then n - 12 else n - 2
  }

  /** How many bytes must agree before a candidate counts as a match. */
  function Minimum(pol: Policy, dist: nat): (r: nat)
    ensures 3 <= r <= 5
  {
    if pol.FastLz2? && dist >= NEAR_DISTANCE then 5 else 3
  }

  /** A candidate at distance `dist` starts a match at `p`. */
  predicate Acceptable(pol: Policy, x: seq<byte>, p: nat, dist: int)
    requires p < SearchEnd(pol, |x|)
  {
    && 1 <= dist <= p
    && match pol {
         case FastLz1 => dist < 8192
         case FastLz2 => dist < 73725
         case Lzf => dist < p && dist <= 8192
         case Clzf => dist < p && dist <= 8192 && p + 4 < |x|
       }
    && Repeats(x, dist, p, p + Minimum(pol, dist))
  }

  /** The end a match at `p` can reach at most. */
  function Reach(pol: Policy, n: nat, p: nat, dist: pos): (r: nat)
    requires p < SearchEnd(pol, n) && (pol.Clzf? ==> p + 4 < n)
    ensures p + Minimum(pol, dist) <= r <= n
    ensures pol.Lzf? || pol.Clzf? ==> r <= p + MAX_REF
    ensures pol.FastLz1? || pol.FastLz2? ==> r < n
  {
    var most := Min(MAX_REF, n - p - 2);
    match pol
    case Lzf => p + Max(if most > 16 then 19 else 3, most)
    case Clzf => p + most
    case _ => if dist == 1 then n - 3 else Max(p + Minimum(pol, dist) + 7, n - 3)
  }

  /** The end of the match at `p` with the bytes `dist` before it: it is as long as its reach allows. */
  function MatchEnd(pol: Policy, x: seq<byte>, p: nat, dist: pos): (r: nat)
    requires p < SearchEnd(pol, |x|) && Acceptable(pol, x, p, dist)
    ensures p + Minimum(pol, dist) <= r <= Reach(pol, |x|, p, dist) && Repeats(x, dist, p, r)
    ensures r < Reach(pol, |x|, p, dist) ==> x[r] != x[r - dist]
  {
    Stretch(x, dist, p + Minimum(pol, dist), Reach(pol, |x|, p, dist))
  }

  // ---------- The search ----------

  type Table = t: seq<nat> | |t| > 0 witness [0]

  function Slot(tab: Table, hash: nat -> nat, p: nat): (r: nat)
    ensures r < |tab|
  {
    hash(p) % |tab|
  }

  /** The table after a match that ended at `q`: its last two positions are entered. */
  function Learn(tab: Table, hash: nat -> nat, q: nat): (r: Table)
    requires q >= 2
    ensures |r| == |tab|
  {
    var t := tab[Slot(tab, hash, q - 2) := q - 2];
    t[Slot(t, hash, q - 1) := q - 1]
  }

  /** All entries of the table are positions before `p`. */
  predicate Below(tab: seq<nat>, p: nat) {
    forall i :: 0 <= i < |tab| ==> tab[i] < p
  }

  lemma {:induction false} BelowLater(tab: seq<nat>, p: nat, q: nat)
    requires Below(tab, p) && p <= q
    ensures Below(tab, q)
  {
  }

  /** Level 2 takes a run of one byte before it looks into the table. */
  predicate RunAt(pol: Policy, x: seq<byte>, p: nat) {
    pol.FastLz2? && 1 <= p && p + 2 < |x| && x[p] == x[p - 1] && x[p] == x[p + 1] && x[p] == x[p + 2]
  }

  function Literals(x: seq<byte>, p: nat): seq<Token>
    requires p <= |x|
    decreases |x| - p
  {
    if p == |x| then [] else [Lit(x[p])] + Literals(x, p + 1)
  }

  /** One step of the search: the token chosen at `p`, the table after it, the next position. */
  datatype Step = Step(tok: Token, tab: Table, next: nat)

  function Next(pol: Policy, x: seq<byte>, hash: nat -> nat, tab: Table, p: nat): (s: Step)
    requires p < SearchEnd(pol, |x|)
    ensures p < s.next <= |x| && |s.tab| == |tab|
  {
    if RunAt(pol, x, p) then
      var q := MatchEnd(pol, x, p, 1);
      Step(Match(q - p, 1), Learn(tab, hash, q), q)
    else
      var dist, tab' := p - tab[Slot(tab, hash, p)], tab[Slot(tab, hash, p) := p];
      if Acceptable(pol, x, p, dist) then
        var q := MatchEnd(pol, x, p, dist);
        Step(Match(q - p, dist), Learn(tab', hash, q), q)
      else Step(Lit(x[p]), tab', p + 1)
  }

  function Search(pol: Policy, x: seq<byte>, hash: nat -> nat, tab: Table, p: nat): seq<Token>
    requires p <= |x|
    decreases |x| - p
  {
    if p >= SearchEnd(pol, |x|) then Literals(x, p)
    else
      var s := Next(pol, x, hash, tab, p);
      [s.tok] + Search(pol, x, hash, s.tab, s.next)
  }

  lemma {:induction false} SearchStep(pol: Policy, x: seq<byte>, hash: nat -> nat, tab: Table, p: nat)
    requires p < SearchEnd(pol, |x|)
    ensures var s := Next(pol, x, hash, tab, p);
            Search(pol, x, hash, tab, p) == [s.tok] + Search(pol, x, hash, s.tab, s.next)
  {
  }

  lemma {:induction false} SearchStops(pol: Policy, x: seq<byte>, hash: nat -> nat, tab: Table, p: nat)
    requires SearchEnd(pol, |x|) <= p <= |x|
    ensures Search(pol, x, hash, tab, p) == Literals(x, p)
  {
  }

  /** The tokens of a whole input; FastLZ takes its first two bytes as literals. */
  function Tokens(pol: Policy, x: seq<byte>, hash: nat -> nat, tab: Table): seq<Token> {
    if (pol.FastLz1? || pol.FastLz2?) && |x| >= 2 then
      [Lit(x[0]), Lit(x[1])] + Search(pol, x, hash, tab, 2)
    else Search(pol, x, hash, tab, 0)
  }

  // ---------- Which matches are taken ----------

  /** The first `n` bytes at `p` and at `q` are the same. */
  predicate SameBytes(x: seq<byte>, p: nat, q: nat, n: nat)
    requires p + n <= |x| && q + n <= |x|
  {
    x[p..p + n] == x[q..q + n]
  }

  /** How far the two levels of FastLZ and the two implementations of LZF look back, and what has to agree there. */
  predicate Worthwhile(pol: Policy, x: seq<byte>, p: nat, q: nat)
    requires p + 2 < |x| && (pol.FastLz1? || pol.FastLz2? ==> p + 12 < |x|)
  {
    && q < p && SameBytes(x, p, q, 3)
    && match pol
       case FastLz1 => p - q <= 8191
       case FastLz2 => p - q <= 73724 && (p - q >= 8191 ==> SameBytes(x, p, q, 5))
       case Lzf => q > 0 && p - q <= 8192
       case Clzf => q > 0 && p - q <= 8192 && p + 4 < |x|
  }

  /** How long a match may be: in LZF by rooms of 264 bytes, in FastLZ up to the last three bytes. */
  function LongestAllowed(pol: Policy, n: nat, p: nat, dist: nat): int {
    var room := n - p - 2;
    match pol
    case Lzf => if room >= 264 then 264 else if room >= 19 then room else if room > 16 then 19
                else if room > 3 then room else 3
    case Clzf => if room >= 264 then 264 else room
    case FastLz1 => n - p - 3
    case FastLz2 => if dist >= 8191 && room < 13 then 12 else n - p - 3
  }

  /** `len` bytes agree, and the next one differs unless the match has its largest length. */
  predicate Longest(pol: Policy, x: seq<byte>, p: nat, q: nat, len: nat)
    requires q < p
  {
    && 3 <= len && p + len <= |x| && SameBytes(x, p, q, len) && len <= LongestAllowed(pol, |x|, p, p - q)
    && (len < LongestAllowed(pol, |x|, p, p - q) ==> p + len < |x| && x[p + len] != x[q + len])
  }

  /** The next token is the longest match of the bytes at `p` with those at `q`; its last two positions are entered. */
  ghost predicate TakesMatch(pol: Policy, x: seq<byte>, hash: nat -> nat, tab: Table, p: nat, q: nat, tab': Table)
    requires q < p <= |x|
  {
    exists len: nat ::
      && Longest(pol, x, p, q, len)
      && var e := p + len;
         var t := tab'[hash(e - 2) % |tab'| := e - 2];
         Search(pol, x, hash, tab, p) == [Match(len, p - q)] + Search(pol, x, hash, t[hash(e - 1) % |t| := e - 1], e)
  }

  ghost predicate TakesLiteral(pol: Policy, x: seq<byte>, hash: nat -> nat, tab: Table, p: nat, tab': Table)
    requires p < |x|
  {
    Search(pol, x, hash, tab, p) == [Lit(x[p])] + Search(pol, x, hash, tab', p + 1)
  }

  lemma {:induction false} RepeatsIsSame(x: seq<byte>, p: nat, q: nat, n: nat)
    requires q < p && p + n <= |x|
    ensures Repeats(x, p - q, p, p + n) <==> SameBytes(x, p, q, n)
  {
    if SameBytes(x, p, q, n) {
      forall i | p <= i < p + n ensures x[i] == x[i - (p - q)] {
        assert x[p..p + n][i - p] == x[q..q + n][i - p];
      }
    }
  }

  lemma {:induction false} AcceptableIff(pol: Policy, x: seq<byte>, p: nat, q: nat)
    requires p < SearchEnd(pol, |x|)
    ensures Acceptable(pol, x, p, p - q) <==> Worthwhile(pol, x, p, q)
  {
    if q < p {
      hide Repeats, SameBytes;
      RepeatsIsSame(x, p, q, Minimum(pol, p - q));
      FirstThree(x, p, q);
    }
  }

  lemma {:induction false} FirstThree(x: seq<byte>, p: nat, q: nat)
    requires q <= p
    ensures p + 5 <= |x| && SameBytes(x, p, q, 5) ==> SameBytes(x, p, q, 3)
  {
    if p + 5 <= |x| {
      assert x[p..p + 5][..3] == x[p..p + 3] && x[q..q + 5][..3] == x[q..q + 3];
    }
  }

  lemma {:induction false} MatchIsLongest(pol: Policy, x: seq<byte>, p: nat, q: nat)
    requires p < SearchEnd(pol, |x|) && q < p && Acceptable(pol, x, p, p - q)
    ensures MatchEnd(pol, x, p, p - q) > p && Longest(pol, x, p, q, MatchEnd(pol, x, p, p - q) - p)
  {
    hide MatchEnd, Acceptable, SameBytes, Repeats;
    RepeatsIsSame(x, p, q, MatchEnd(pol, x, p, p - q) - p);
  }

  lemma {:induction false} StepTakesMatch(pol: Policy, x: seq<byte>, hash: nat -> nat, tab: Table, p: nat, q: nat,
                                          tab': Table)
    requires p < SearchEnd(pol, |x|) && q < p && Acceptable(pol, x, p, p - q)
    requires var e := MatchEnd(pol, x, p, p - q);
             Next(pol, x, hash, tab, p) == Step(Match(e - p, p - q), Learn(tab', hash, e), e)
    ensures TakesMatch(pol, x, hash, tab, p, q, tab')
  {
    hide Acceptable, MatchEnd, Search, Longest, Next;
    SearchStep(pol, x, hash, tab, p);
    MatchIsLongest(pol, x, p, q);
    var len: nat := MatchEnd(pol, x, p, p - q) - p;
    assert Longest(pol, x, p, q, len);
  }

  /**
   What the search does at a position: level 2 of FastLZ takes a run of one byte first; then
   the position in the table is taken whenever it is worth it, and as far as it goes.
   */
  lemma {:induction false} SearchTakes(pol: Policy, x: seq<byte>, hash: nat -> nat, tab: Table, p: nat)
    requires p + (if pol.FastLz1? || pol.FastLz2? then 12 else 2) < |x|
    ensures var q := tab[hash(p) % |tab|];
            if pol.FastLz2? && p > 0 && x[p - 1] == x[p] == x[p + 1] == x[p + 2] then
              TakesMatch(pol, x, hash, tab, p, p - 1, tab)
            else if Worthwhile(pol, x, p, q) then TakesMatch(pol, x, hash, tab, p, q, tab[hash(p) % |tab| := p])
            else TakesLiteral(pol, x, hash, tab, p, tab[hash(p) % |tab| := p])
  {
    hide Acceptable, MatchEnd, Search, Worthwhile, TakesMatch, Learn;
    var q := tab[hash(p) % |tab|];
    if RunAt(pol, x, p) {
      RunIsAcceptable(pol, x, p);
      StepTakesMatch(pol, x, hash, tab, p, p - 1, tab);
    } else {
      AcceptableIff(pol, x, p, q);
      if Worthwhile(pol, x, p, q) {
        AcceptableIsBehind(pol, x, p, p - q);
        StepTakesMatch(pol, x, hash, tab, p, q, tab[hash(p) % |tab| := p]);
      } else {
        SearchStep(pol, x, hash, tab, p);
      }
    }
  }

  lemma {:induction false} AcceptableIsBehind(pol: Policy, x: seq<byte>, p: nat, dist: int)
    requires p < SearchEnd(pol, |x|) && Acceptable(pol, x, p, dist)
    ensures 1 <= dist <= p
  {
  }

  /** The last twelve or two bytes are taken as literals, and so are the first two in FastLZ. */
  lemma {:induction false} SearchEnds(pol: Policy, x: seq<byte>, hash: nat -> nat, tab: Table, p: nat)
    requires p <= |x|
    ensures p + (if pol.FastLz1? || pol.FastLz2? then 12 else 2) >= |x| ==>
              Search(pol, x, hash, tab, p) == Literals(x, p)
    ensures Tokens(pol, x, hash, tab)
         == if (pol.FastLz1? || pol.FastLz2?) && |x| >= 2 then
              [Lit(x[0]), Lit(x[1])] + Search(pol, x, hash, tab, 2)
            else Search(pol, x, hash, tab, 0)
  {
  }

  lemma {:induction false} RunIsAcceptable(pol: Policy, x: seq<byte>, p: nat)
    requires p < SearchEnd(pol, |x|) && RunAt(pol, x, p)
    ensures Acceptable(pol, x, p, 1)
  {
  }

  // ---------- The tokens describe the input ----------

  lemma {:induction false} LiteralsDescribe(fmt: Format, x: seq<byte>, p: nat)
    requires p <= |x|
    ensures Describes(fmt, x, p, Literals(x, p))
    decreases |x| - p
  {
    if p < |x| {
      LiteralsDescribe(fmt, x, p + 1);
    }
  }

  /** The chosen token spells out the bytes up to the next position. */
  lemma {:induction false} StepDescribes(pol: Policy, x: seq<byte>, hash: nat -> nat, tab: Table, p: nat,
                          rest: seq<Token>)
    requires p < SearchEnd(pol, |x|) && |x| < U32
    requires Describes(Wire(pol), x, Next(pol, x, hash, tab, p).next, rest)
    ensures Describes(Wire(pol), x, p, [Next(pol, x, hash, tab, p).tok] + rest)
  {
    hide MatchEnd, Learn, Slot;
    assert ([Next(pol, x, hash, tab, p).tok] + rest)[1..] == rest;
  }

  /** Whatever the hash values and the table contents, the tokens found spell out the input. */
  lemma {:induction false} SearchDescribes(pol: Policy, x: seq<byte>, hash: nat -> nat, tab: Table, p: nat)
    requires p <= |x| < U32
    ensures Describes(Wire(pol), x, p, Search(pol, x, hash, tab, p))
    decreases |x| - p
  {
    if p >= SearchEnd(pol, |x|) {
      LiteralsDescribe(Wire(pol), x, p);
    } else {
      hide Next, Describes;
      var s := Next(pol, x, hash, tab, p);
      SearchDescribes(pol, x, hash, s.tab, s.next);
      StepDescribes(pol, x, hash, tab, p, Search(pol, x, hash, s.tab, s.next));
    }
  }

  lemma {:induction false} TokensDescribe(pol: Policy, x: seq<byte>, hash: nat -> nat, tab: Table)
    requires |x| < U32
    ensures Describes(Wire(pol), x, 0, Tokens(pol, x, hash, tab))
  {
    var fast := (pol.FastLz1? || pol.FastLz2?) && |x| >= 2;
    SearchDescribes(pol, x, hash, tab, if fast then 2 else 0);
    if fast {
      var toks, rest := Tokens(pol, x, hash, tab), Search(pol, x, hash, tab, 2);
      assert toks[1..][1..] == rest;
    }
  }

  // ---------- Layout of literals ----------

  /** An open run that covers the bytes before `p` covers the bytes before `p + 1` afterwards. */
  lemma {:induction false} RunGrows(x: seq<byte>, p: nat, n: nat, done: seq<byte>)
    requires n <= p < |x| && n < MAX_RUN
    ensures var run' := Advance(done, x[p - n..p], x[p]).1;
            |run'| == (if n + 1 == MAX_RUN then 0 else n + 1) && run' == x[p + 1 - |run'|..p + 1]
  {
    assert x[p - n..p + 1] == x[p - n..p] + [x[p]];
  }

  /** The open run that covers the last `n` bytes before `p` takes the byte at `p`. */
  lemma {:induction false} RestStep(fmt: Format, x: seq<byte>, p: nat, n: nat, done: seq<byte>)
    requires n <= p < |x| && n < MAX_RUN
    ensures var (done', run') := Advance(done, x[p - n..p], x[p]);
            && run' == x[p + 1 - |run'|..p + 1]
            && done + Emit(fmt, x[p - n..p], Literals(x, p)) == done' + Emit(fmt, run', Literals(x, p + 1))
  {
    AdvanceEmits(fmt, done, x[p - n..p], x[p], Literals(x, p + 1));
    RunGrows(x, p, n, done);
  }

  lemma {:induction false} RestEnds(fmt: Format, x: seq<byte>, run: seq<byte>)
    ensures Emit(fmt, run, Literals(x, |x|)) == RunBytes(run)
  {
  }
}
