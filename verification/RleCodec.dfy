/**
 The run-length loops over token buffers, shared by the data codec and the image codecs.
 The source checks no buffer: where a write would leave the output buffer, or a read the
 stream, nothing can be said about the run any more, and that is what a method reports.
 */
module RleCodec {
  import opened Bytes
  import opened Rle
  import RleCanonical

  // ---------- Writing ----------

  /** `_write`: stores a run and advances the output position, unless the run does not fit. */
  method WriteRun(a: Alphabet, token: nat, n: nat, out: array<nat>, start: nat) returns (ok: bool, pos: nat)
    requires start <= out.Length
    modifies out
    ensures ok == (start + |Write(a, token, n)| <= out.Length)
    ensures ok ==> pos == start + |Write(a, token, n)| && out[..pos] == old(out[..start]) + Write(a, token, n)
    ensures ok && (n >= 3 || token == a.marker) ==> out[start..pos] == [a.marker, token, n]
    ensures ok && n < 3 && token != a.marker ==> out[start..pos] == Repeat(token, n)
  {
    ok, pos := true, start;
    if token == a.marker {
      if pos + 3 > out.Length { return false, pos; }
      out[pos], out[pos + 1], out[pos + 2] := a.marker, a.marker, n;
      pos := pos + 3;
    } else {
      match n
      case 2 =>
        if pos + 2 > out.Length { return false, pos; }
        out[pos], out[pos + 1] := token, token;
        pos := pos + 2;
      case 1 =>
        if pos + 1 > out.Length { return false, pos; }
        out[pos] := token;
        pos := pos + 1;
      case 0 =>
      case _ =>
        if pos + 3 > out.Length { return false, pos; }
        out[pos], out[pos + 1], out[pos + 2] := a.marker, token, n;
        pos := pos + 3;
    }
  }

  /** The output so far, the open run and the tokens to come make up `whole`. */
  ghost predicate Running(a: Alphabet, out: array<nat>, pos: nat, last: nat, same: nat, rest: seq<nat>, whole: seq<nat>)
    reads out
  {
    pos <= out.Length && out[..pos] + Encode(a, last, same, rest) == whole
  }

  /** `_compressToken`: the run goes on, or it is written and a new one begins. */
  method CompressToken(a: Alphabet, token: nat, last: nat, same: nat, out: array<nat>, start: nat,
                       ghost rest: seq<nat>, ghost whole: seq<nat>)
    returns (ok: bool, last': nat, same': nat, pos: nat)
    requires Running(a, out, start, last, same, [token] + rest, whole)
    modifies out
    ensures ok ==> Running(a, out, pos, last', same', rest, whole)
    ensures !ok ==> |whole| > out.Length
  {
    hide Write;
    assert ([token] + rest)[1..] == rest;
    if token == last && same != a.max {
      return true, last, same + 1, start;
    }
    assert out[..start] + Write(a, last, same) + Encode(a, token, 1, rest) == whole;
    ok, pos := WriteRun(a, last, same, out, start);
    last', same' := token, 1;
  }

  /** The last run is written at the end. */
  method FinishRun(a: Alphabet, last: nat, same: nat, out: array<nat>, start: nat,
                   ghost whole: seq<nat>) returns (ok: bool, pos: nat)
    requires Running(a, out, start, last, same, [], whole)
    modifies out
    ensures ok == (|whole| <= out.Length)
    ensures ok ==> pos == |whole| && out[..pos] == whole
  {
    hide Write;
    ok, pos := WriteRun(a, last, same, out, start);
  }

  /** The whole encoding, or `None` exactly when the buffer is too small for it. */
  method Compress(a: Alphabet, xs: seq<nat>, out: array<nat>) returns (r: Option<nat>)
    modifies out
    ensures r == if |Rle.Compress(a, xs)| <= out.Length then Some(|Rle.Compress(a, xs)|) else None
    ensures r.Some? ==> out[..r.value] == Rle.Compress(a, xs)
    ensures r.Some? && a.Valid() ==> RleCanonical.Canonical(a, out[..r.value])
  {
    hide RleCanonical.Canonical, Encode, Running;
    Starts(a, xs, out);
    if |xs| == 0 { return Some(0); }
    hide Rle.Compress;
    ghost var whole := Rle.Compress(a, xs);
    var last, same, i := xs[0], 1, 1;
    var ok: bool, n: nat := true, 0;
    while i < |xs|
      invariant 1 <= i <= |xs| && Running(a, out, n, last, same, xs[i..], whole)
    {
      assert xs[i..] == [xs[i]] + xs[i + 1..];
      ok, last, same, n := CompressToken(a, xs[i], last, same, out, n, xs[i + 1..], whole);
      if !ok { return None; }
      i := i + 1;
    }
    assert xs[i..] == [];
    ok, n := FinishRun(a, last, same, out, n, whole);
    r := if ok then Some(n) else None;
  }

  lemma {:induction false} Starts(a: Alphabet, xs: seq<nat>, out: array<nat>)
    ensures xs != [] ==> Running(a, out, 0, xs[0], 1, xs[1..], Rle.Compress(a, xs))
    ensures a.Valid() ==> RleCanonical.Canonical(a, Rle.Compress(a, xs))
  {
    hide RleCanonical.Canonical, Encode;
    if xs != [] {
      assert out[..0] + Rle.Compress(a, xs) == Rle.Compress(a, xs);
    }
    if a.Valid() {
      RleCanonical.CompressIsCanonical(a, xs);
    }
  }

  // ---------- Reading ----------

  /** One token of a decoder: from the run being repeated, or from the stream at `start` if that holds it. */
  method ReadToken(a: Alphabet, s: seq<nat>, start: nat, token: nat, left: nat)
    returns (ok: bool, token': nat, left': nat, pos: nat)
    requires start <= |s|
    ensures ok == Read(a, Reader(token, left, s[start..])).Some?
    ensures ok ==> pos <= |s| && Read(a, Reader(token, left, s[start..])) == Some(Reader(token', left', s[pos..]))
  {
    ok, token', left', pos := false, token, left, start;
    if left' == 0 {
      if pos >= |s| { return; }
      token' := s[pos];
      pos := pos + 1;
      if token' == a.marker {
        if pos + 1 >= |s| { return; }
        token' := s[pos];
        left' := s[pos + 1];
        pos := pos + 2;
      } else {
        left' := 1;
      }
    }
    ok, left' := true, if left' == 0 then a.max else left' - 1;
  }

  /** `n` tokens, after `done` of them have been read. */
  function DecodeOn(a: Alphabet, r: Reader, n: nat, done: seq<nat>): Option<(seq<nat>, Reader)> {
    match Decode(a, r, n)
    case None => None
    case Some((xs, end)) => Some((done + xs, end))
  }

  lemma {:induction false} DecodeStep(a: Alphabet, r: Reader, n: nat, done: seq<nat>)
    requires n > 0
    ensures DecodeOn(a, r, n, done) ==
            match Read(a, r)
            case None => None
            case Some(r') => DecodeOn(a, r', n - 1, done + [r'.token])
  {
    if Read(a, r).Some? {
      var r' := Read(a, r).value;
      if Decode(a, r', n - 1).Some? {
        var xs := Decode(a, r', n - 1).value.0;
        assert done + ([r'.token] + xs) == (done + [r'.token]) + xs;
      }
    }
  }

  /** Reads `n` tokens; `None` exactly when the stream does not hold them, else where reading ends. */
  method Decompress(a: Alphabet, s: seq<nat>, out: array<nat>, n: nat) returns (r: Option<nat>)
    requires n <= out.Length
    modifies out
    ensures r == None <==> Decode(a, Reader(0, 0, s), n) == None
    ensures r.Some? ==> r.value <= |s| && s[r.value..] == Decode(a, Reader(0, 0, s), n).value.1.rest
    ensures r.Some? ==> out[..n] == Decode(a, Reader(0, 0, s), n).value.0
  {
    hide Decode, Read;
    ghost var outcome := Decode(a, Reader(0, 0, s), n);
    var token: nat, left: nat, i: nat, pos: nat := 0, 0, 0, 0;
    assert s[0..] == s && out[..0] == [];
    assert DecodeOn(a, Reader(0, 0, s), n, []) == outcome by {
      if outcome.Some? {
        assert [] + outcome.value.0 == outcome.value.0;
      }
    }
    while i < n
      invariant i <= n && pos <= |s|
      invariant DecodeOn(a, Reader(token, left, s[pos..]), n - i, out[..i]) == outcome
    {
      DecodeStep(a, Reader(token, left, s[pos..]), n - i, out[..i]);
      var ok;
      ok, token, left, pos := ReadToken(a, s, pos, token, left);
      if !ok { return None; }
      ghost var before := out[..i];
      out[i] := token;
      assert out[..i + 1] == before + [token];
      i := i + 1;
    }
    assert out[..n] + [] == out[..n];
    return Some(pos);
  }
}
