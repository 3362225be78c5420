/**
 The run-length streams that writers can choose from, and the one of them that is written:
 among all streams that read back as given tokens exactly one is canonical.
 */
module RleCanonical {
  import opened Bytes
  import opened Rle

  /** A token as it is, or an escaped triple for `count` of them. */
  datatype Piece = Plain(token: nat) | Triple(token: nat, count: nat)

  function PieceTokens(p: Piece): seq<nat> {
    match p
    case Plain(token) => [token]
    case Triple(token, count) => Repeat(token, count)
  }

  function PieceStream(a: Alphabet, p: Piece): (s: seq<nat>)
    ensures s != []
  {
    match p
    case Plain(token) => [token]
    case Triple(token, count) => [a.marker, token, count]
  }

  function Tokens(ps: seq<Piece>): seq<nat> {
    if ps == [] then [] else PieceTokens(ps[0]) + Tokens(ps[1..])
  }

  function Stream(a: Alphabet, ps: seq<Piece>): seq<nat> {
    if ps == [] then [] else PieceStream(a, ps[0]) + Stream(a, ps[1..])
  }

  // ---------- Canonical streams ----------

  /** A marker is never plain, and a triple is worth writing: three tokens at least, or markers. */
  predicate WellFormed(a: Alphabet, p: Piece) {
    match p
    case Plain(token) => token != a.marker
    case Triple(token, count) => (if token == a.marker then 1 else 3) <= count <= a.max
  }

  /** A run goes on behind a full counter, or from one plain token to a second one. */
  predicate Follows(a: Alphabet, p: Piece, q: Piece) {
    p.token == q.token ==> (p.Triple? && p.count == a.max) || (p.Plain? && q.Plain?)
  }

  /** Three equal plain tokens would have been escaped. */
  predicate ThreePlain(p: Piece, q: Piece, r: Piece) {
    p.Plain? && q.Plain? && r.Plain? && p.token == q.token == r.token
  }

  predicate AllWellFormed(a: Alphabet, ps: seq<Piece>) {
    forall i :: 0 <= i < |ps| ==> WellFormed(a, ps[i])
  }

  ghost predicate Neighbours(a: Alphabet, ps: seq<Piece>) {
    && (forall i, j :: 0 <= i && j == i + 1 && j < |ps| ==> Follows(a, ps[i], ps[j]))
    && (forall i, j, k :: 0 <= i && j == i + 1 && k == i + 2 && k < |ps| ==> !ThreePlain(ps[i], ps[j], ps[k]))
  }

  ghost predicate Canonical(a: Alphabet, s: seq<nat>) {
    exists ps :: AllWellFormed(a, ps) && Neighbours(a, ps) && s == Stream(a, ps)
  }

  lemma {:induction false} Shorter(a: Alphabet, ps: seq<Piece>, n: nat)
    requires AllWellFormed(a, ps) && Neighbours(a, ps) && n <= |ps|
    ensures AllWellFormed(a, ps[n..]) && Neighbours(a, ps[n..])
  {
  }

  /** A piece in front of others. */
  lemma {:induction false} Prepend(a: Alphabet, p: Piece, ps: seq<Piece>)
    requires WellFormed(a, p) && AllWellFormed(a, ps) && Neighbours(a, ps)
    requires ps != [] ==> Follows(a, p, ps[0])
    requires |ps| > 1 ==> !ThreePlain(p, ps[0], ps[1])
    ensures AllWellFormed(a, [p] + ps) && Neighbours(a, [p] + ps)
    ensures Stream(a, [p] + ps) == PieceStream(a, p) + Stream(a, ps)
  {
    var all := [p] + ps;
    assert all[1..] == ps;
    assert forall i :: 0 < i < |all| ==> all[i] == ps[i - 1];
  }

  // ---------- What is written is canonical ----------

  /** The pieces of a written run in front of those of other tokens, or of the same behind a full counter. */
  lemma {:induction false} RunIsCanonical(a: Alphabet, token: nat, n: nat, ps: seq<Piece>) returns (all: seq<Piece>)
    requires a.Valid() && 1 <= n <= a.max && AllWellFormed(a, ps) && Neighbours(a, ps)
    requires ps != [] && ps[0].token == token ==> n == a.max
    ensures AllWellFormed(a, all) && Neighbours(a, all) && Stream(a, all) == Write(a, token, n) + Stream(a, ps)
    ensures all != [] && all[0].token == token
  {
    hide Stream, AllWellFormed, Neighbours;
    if token == a.marker || n > 2 {
      all := [Triple(token, n)] + ps;
      Prepend(a, Triple(token, n), ps);
    } else {
      all := [Plain(token)] + ps;
      Prepend(a, Plain(token), ps);
      if n == 2 {
        var one := all;
        all := [Plain(token)] + one;
        Prepend(a, Plain(token), one);
        assert [token] + ([token] + Stream(a, ps)) == [token, token] + Stream(a, ps);
      }
    }
  }

  lemma {:induction false} EncodeIsCanonical(a: Alphabet, last: nat, same: nat, xs: seq<nat>) returns (ps: seq<Piece>)
    requires a.Valid() && 1 <= same <= a.max
    ensures AllWellFormed(a, ps) && Neighbours(a, ps) && Encode(a, last, same, xs) == Stream(a, ps)
    ensures ps != [] && ps[0].token == last
    decreases |xs|
  {
    hide Write, AllWellFormed, Neighbours;
    if xs == [] {
      Nothing(a);
      ps := RunIsCanonical(a, last, same, []);
      assert Write(a, last, same) + [] == Write(a, last, same);
    } else if xs[0] == last && same != a.max {
      ps := EncodeIsCanonical(a, last, same + 1, xs[1..]);
    } else {
      ps := EncodeIsCanonical(a, xs[0], 1, xs[1..]);
      ps := RunIsCanonical(a, last, same, ps);
    }
  }

  lemma {:induction false} Nothing(a: Alphabet)
    ensures AllWellFormed(a, []) && Neighbours(a, []) && Stream(a, []) == []
  {
  }

  /** Whatever the tokens, their stream is canonical. */
  lemma {:induction false} CompressIsCanonical(a: Alphabet, xs: seq<nat>)
    requires a.Valid()
    ensures Canonical(a, Compress(a, xs))
  {
    hide AllWellFormed, Neighbours, Encode;
    Nothing(a);
    if xs != [] {
      var ps := EncodeIsCanonical(a, xs[0], 1, xs[1..]);
    }
  }

  // ---------- Nothing else is ----------

  lemma {:induction false} RepeatMore(token: nat, n: nat, xs: seq<nat>)
    ensures Repeat(token, n + 1) + xs == [token] + (Repeat(token, n) + xs)
  {
  }

  lemma {:induction false} RepeatSum(t: nat, n: nat, m: nat)
    ensures Repeat(t, n + m) == Repeat(t, n) + Repeat(t, m)
  {
    if n > 0 {
      RepeatSum(t, n - 1, m);
    }
  }

  /** The open run takes what continues it. */
  lemma {:induction false} EncodeRepeat(a: Alphabet, token: nat, same: nat, n: nat, xs: seq<nat>)
    requires same + n <= a.max
    ensures Encode(a, token, same, Repeat(token, n) + xs) == Encode(a, token, same + n, xs)
    decreases n
  {
    if n == 0 {
      assert Repeat(token, 0) + xs == xs;
    } else {
      RepeatMore(token, n - 1, xs);
      var ys := Repeat(token, n) + xs;
      assert ys[1..] == Repeat(token, n - 1) + xs;
      EncodeRepeat(a, token, same + 1, n - 1, xs);
    }
  }

  /** A run that ends is written, and what is behind it is compressed afresh. */
  lemma {:induction false} CompressRun(a: Alphabet, token: nat, n: nat, xs: seq<nat>)
    requires 1 <= n <= a.max && (xs != [] && xs[0] == token ==> n == a.max)
    ensures Compress(a, Repeat(token, n) + xs) == Write(a, token, n) + Compress(a, xs)
  {
    RepeatMore(token, n - 1, xs);
    var ys := Repeat(token, n) + xs;
    assert ys[1..] == Repeat(token, n - 1) + xs;
    EncodeRepeat(a, token, 1, n - 1, xs);
    if xs == [] {
      assert Write(a, token, n) + [] == Write(a, token, n);
    }
  }

  lemma {:induction false} FirstToken(a: Alphabet, ps: seq<Piece>)
    requires AllWellFormed(a, ps)
    ensures Tokens(ps) == [] <==> ps == []
    ensures ps != [] ==> Tokens(ps)[0] == ps[0].token
  {
    if ps != [] {
      assert WellFormed(a, ps[0]);
      assert PieceTokens(ps[0])[0] == ps[0].token;
    }
  }

  lemma {:induction false} TwoPlain(a: Alphabet, token: nat, ps: seq<Piece>)
    requires |ps| > 1 && ps[0] == ps[1] == Plain(token)
    ensures Tokens(ps) == Repeat(token, 2) + Tokens(ps[2..])
    ensures Stream(a, ps) == [token, token] + Stream(a, ps[2..])
  {
    var rest := ps[1..];
    assert rest[0] == Plain(token) && rest[1..] == ps[2..];
    var xs, s := Tokens(ps[2..]), Stream(a, ps[2..]);
    assert Tokens(rest) == [token] + xs && Stream(a, rest) == [token] + s;
    TwoInFront(token, xs);
    TwoInFront(token, s);
  }

  lemma {:induction false} TwoInFront(token: nat, xs: seq<nat>)
    ensures [token] + ([token] + xs) == [token, token] + xs == Repeat(token, 2) + xs
  {
    assert Repeat(token, 2) == [token, token];
  }

  /** The stream of canonical pieces is what their tokens are compressed to. */
  lemma {:induction false} CanonicalIsWritten(a: Alphabet, ps: seq<Piece>)
    requires a.Valid() && AllWellFormed(a, ps) && Neighbours(a, ps)
    ensures Compress(a, Tokens(ps)) == Stream(a, ps)
    decreases |ps|
  {
    if ps != [] {
      var p, token := ps[0], ps[0].token;
      assert WellFormed(a, p);
      Shorter(a, ps, 1);
      FirstToken(a, ps[1..]);
      assert |ps| > 1 ==> Follows(a, ps[0], ps[1]);
      hide AllWellFormed, Neighbours, Compress, Tokens, Stream;
      if |ps| > 1 && ps[1] == p && p.Plain? {
        CanonicalPair(a, ps);
      } else {
        var n := if p.Plain? then 1 else p.count;
        CanonicalIsWritten(a, ps[1..]);
        CompressRun(a, token, n, Tokens(ps[1..]));
        PieceHead(a, ps);
      }
    }
  }

  lemma {:induction false} PieceHead(a: Alphabet, ps: seq<Piece>)
    requires ps != [] && WellFormed(a, ps[0])
    ensures var n := if ps[0].Plain? then 1 else ps[0].count;
            && Tokens(ps) == Repeat(ps[0].token, n) + Tokens(ps[1..])
            && Stream(a, ps) == Write(a, ps[0].token, n) + Stream(a, ps[1..])
  {
    assert Repeat(ps[0].token, 1) == [ps[0].token];
  }

  lemma {:induction false} CanonicalPair(a: Alphabet, ps: seq<Piece>)
    requires a.Valid() && AllWellFormed(a, ps) && Neighbours(a, ps) && |ps| > 1 && ps[0] == ps[1] && ps[0].Plain?
    ensures Compress(a, Tokens(ps)) == Stream(a, ps)
    decreases |ps|, 0
  {
    var token := ps[0].token;
    assert WellFormed(a, ps[0]);
    TwoPlain(a, token, ps);
    Shorter(a, ps, 2);
    FirstToken(a, ps[2..]);
    assert |ps| > 2 ==> Follows(a, ps[1], ps[2]) && !ThreePlain(ps[0], ps[1], ps[2]);
    hide AllWellFormed, Neighbours, Compress, Tokens, Stream;
    CanonicalIsWritten(a, ps[2..]);
    CompressRun(a, token, 2, Tokens(ps[2..]));
  }

  /** A stream of pieces reads back as their tokens, and ends there. */
  lemma {:induction false} PiecesReadBack(a: Alphabet, ps: seq<Piece>, before: nat) returns (last: nat)
    requires AllWellFormed(a, ps)
    ensures Decode(a, Reader(before, 0, Stream(a, ps)), |Tokens(ps)|) == Some((Tokens(ps), Reader(last, 0, [])))
    decreases |ps|
  {
    if ps == [] {
      last := before;
    } else {
      assert WellFormed(a, ps[0]);
      hide Decode;
      var rest, xs := Stream(a, ps[1..]), Tokens(ps[1..]);
      last := PiecesReadBack(a, ps[1..], ps[0].token);
      match ps[0]
      case Plain(token) => SingleReadsBack(a, token, rest, before, |xs|, xs, Reader(last, 0, []));
      case Triple(token, n) => EscapedReadsBack(a, token, n, rest, before, |xs|, xs, Reader(last, 0, []));
    }
  }

  /** A reader that is at its end gives no more tokens, so there is one number of tokens that leads there. */
  lemma {:induction false} EndsOnce(a: Alphabet, r: Reader, n: nat, m: nat)
    requires Decode(a, r, n).Some? && Decode(a, r, n).value.1.left == 0 && Decode(a, r, n).value.1.rest == []
    requires Decode(a, r, m).Some? && Decode(a, r, m).value.1.left == 0 && Decode(a, r, m).value.1.rest == []
    ensures n == m
    decreases n
  {
    if n > 0 && m > 0 {
      EndsOnce(a, Read(a, r).value, n - 1, m - 1);
    }
  }

  /** The stream reads back as the tokens and ends with them. */
  predicate StandsFor(a: Alphabet, s: seq<nat>, xs: seq<nat>) {
    var d := Decode(a, Reader(0, 0, s), |xs|);
    d.Some? && d.value.0 == xs && d.value.1.left == 0 && d.value.1.rest == []
  }

  /**
   Among all streams that stand for the tokens, the one that is written is the only canonical
   one: it escapes what has to be or is worth it, and nothing else.
   */
  lemma {:induction false} CanonicalIff(a: Alphabet, s: seq<nat>, xs: seq<nat>)
    requires a.Valid()
    ensures s == Compress(a, xs) <==> StandsFor(a, s, xs) && Canonical(a, s)
  {
    hide AllWellFormed, Neighbours, Decode, Compress;
    CompressIsCanonical(a, xs);
    RoundTrip(a, xs, []);
    assert Compress(a, xs) + [] == Compress(a, xs);
    if StandsFor(a, s, xs) && Canonical(a, s) {
      var ps :| AllWellFormed(a, ps) && Neighbours(a, ps) && s == Stream(a, ps);
      var last := PiecesReadBack(a, ps, 0);
      EndsOnce(a, Reader(0, 0, s), |xs|, |Tokens(ps)|);
      CanonicalIsWritten(a, ps);
    }
  }

  /** A single run: three equal tokens are escaped, and every marker is; one or two others are not. */
  lemma {:induction false} SingleRun(a: Alphabet, token: nat, n: nat)
    requires 1 <= n <= a.max
    ensures Compress(a, Repeat(token, n))
         == if token == a.marker || n >= 3 then [a.marker, token, n] else Repeat(token, n)
  {
    CompressRun(a, token, n, []);
    assert Repeat(token, n) + [] == Repeat(token, n);
    assert Repeat(token, 1) == [token] && Repeat(token, 2) == [token, token];
  }
}
