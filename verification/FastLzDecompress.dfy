/** The FastLZ decoder, both levels, decoding in place into a bounded output buffer. */
module FastLzDecompress {
  import opened Bytes
  import opened LzFormat
  import opened LzBuffer

  const MAX_DISTANCE := 8191

  /** The top three bits of the first byte carry the level and are not part of the stream. */
  function Unmark(s: seq<byte>): seq<byte>
    requires s != []
  {
    [s[0] % 32] + s[1..]
  }

  function Meaning(fmt: Format, s: seq<byte>, cap: nat): Outcome
    requires s != []
  {
    Decode(fmt, Unmark(s), [], cap)
  }

  lemma {:induction false} ChainHead(s: seq<byte>, at: nat)
    requires at <= |s|
    ensures at == |s| ==> ReadChain(s[at..]) == None
    ensures at < |s| && s[at] != 255 ==> ReadChain(s[at..]) == Some((s[at] as int, 1))
    ensures at < |s| && s[at] == 255 ==>
              var rest := ReadChain(s[at + 1..]);
              ReadChain(s[at..]) == if rest == None then None else Some((255 + rest.value.0, rest.value.1 + 1))
  {
    if at < |s| {
      assert s[at..][1..] == s[at + 1..];
    }
  }

  lemma {:induction false} SumsOn(len: nat, code: nat, rest: nat)
    ensures ((len + code) % U32 + rest) % U32 == (len + (code + rest)) % U32
  {
  }

  /** The length bytes of level 2: read until one is not 255, summing in 32 bits. */
  method ReadLengths(s: seq<byte>, start: nat, first: nat) returns (ok: bool, len: nat, ip: nat)
    requires start <= |s| && first < U32
    ensures ok == ReadChain(s[start..]).Some?
    ensures ok ==> ReadChain(s[start..]).value.1 == ip - start && start < ip <= |s|
    ensures ok ==> len == (first + ReadChain(s[start..]).value.0) % U32
  {
    hide ReadChain;
    ok, len, ip := true, first, start;
    var code: nat := 255;
    while code == 255
      invariant start <= ip <= |s| && len < U32
      invariant code == 255 ==> (ReadChain(s[ip..]).Some? <==> ReadChain(s[start..]).Some?)
      invariant code == 255 && ReadChain(s[ip..]).Some? ==>
        && ReadChain(s[start..]).value.1 == ip - start + ReadChain(s[ip..]).value.1
        && (len + ReadChain(s[ip..]).value.0) % U32 == (first + ReadChain(s[start..]).value.0) % U32
      invariant code != 255 ==>
        && ReadChain(s[start..]).Some?
        && ReadChain(s[start..]).value.1 == ip - start && start < ip
        && len == (first + ReadChain(s[start..]).value.0) % U32
      decreases |s| - ip
    {
      ChainHead(s, ip);
      if ip >= |s| { return false, len, ip; }
      code := s[ip];
      ip := ip + 1;
      if code == 255 && ReadChain(s[ip..]).Some? {
        SumsOn(len, code, ReadChain(s[ip..]).value.0);
      }
      len := (len + code) % U32;
    }
  }

  /**
   The operands of a back reference. `len` is biased by three; `back` is how far `ref` lies
   behind `op`. Not `ok` when an operand byte would be read from behind the stream.
   */
  method ReadOperands(fmt: Format, s: seq<byte>, start: nat, ctrl: byte)
    returns (ok: bool, len: nat, back: nat, ip: nat)
    requires start <= |s| && ctrl >= 32
    ensures ok == ReadCopy(fmt, [ctrl] + s[start..]).Some?
    ensures ok ==> start < ip <= |s|
                   && ReadCopy(fmt, [ctrl] + s[start..]) == Some(Reference(len + 3, back + 1, ip - start + 1))
  {
    ghost var t := [ctrl] + s[start..];
    assert t[1..] == s[start..];
    ok, ip := false, start;
    len := ctrl / 32 - 1;
    var ofs: nat := Word(ctrl % 32, 0);
    back := ofs;
    if len == 7 - 1 {
      if fmt.Short? {
        if ip >= |s| { return; }
        len := len + s[ip];
        ip := ip + 1;
      } else {
        var inside;
        inside, len, ip := ReadLengths(s, ip, len);
        if !inside { return; }
      }
    }
    if ip >= |s| { return; }
    var code: nat := s[ip];
    ip := ip + 1;
    back := back + code;
    if fmt.Extended? && code == 255 && ofs == Word(31, 0) {
      if ip + 1 >= |s| { return; }
      ofs := Word(s[ip], s[ip + 1]);
      ip := ip + 2;
      back := ofs + MAX_DISTANCE;
    }
    ok := true;
  }

  /** Copies `len + 3` bytes from `back + 1` bytes before `op`; a distance of one is a run. */
  method CopyReference(strictAlign: bool, output: array<byte>, start: nat, back: nat, len: nat) returns (op: nat)
    requires back < start && start + len + 3 <= output.Length
    modifies output
    ensures op == start + len + 3
    ensures output[..op] == CopyBack(old(output[..start]), back + 1, len + 3)
  {
    hide CopyBack;
    ghost var before := output[..start];
    CopyBackTwice(before, back + 1, 3, len);
    if back == 0 {
      op := FillRun(output, start, 3);
      op := FillRun(output, op, len);
    } else {
      op := CopyOctets(output, start, back + 1, 3);
      if strictAlign {
        op := CopyOctets(output, op, back + 1, len);
      } else {
        op := CopyWords(output, op, back + 1, len);
      }
    }
  }

  /**
   Decodes `s` into `output`. Zero is returned exactly when the stream is rejected;
   otherwise the output holds the decoded bytes. The source reads the operand bytes of a
   back reference without a check: `None` stands for a run in which one of them lies
   behind the stream, of which nothing can be said.
   */
  method Decompress(strictAlign: bool, fmt: Format, s: seq<byte>, output: array<byte>) returns (r: Option<nat>)
    requires s != []
    modifies output
    ensures match Meaning(fmt, s, output.Length)
            case Done(out) => r == Some(|out|) && |out| <= output.Length && output[..|out|] == out
            case ShortOperands => r == None
            case _ => r == Some(0)
  {
    hide ReadCopy, CopyBack, Decode;
    ghost var outcome := Meaning(fmt, s, output.Length);
    var ip: nat, op: nat, ctrl: byte, loop := 1, 0, s[0] % 32, true;
    while loop
      invariant 1 <= ip <= |s| && op <= output.Length
      invariant loop ==> Decode(fmt, [ctrl] + s[ip..], output[..op], output.Length) == outcome
      invariant !loop ==> outcome == Done(output[..op])
      decreases if loop then |s| - ip + 1 else 0
    {
      if ctrl >= 32 {
        DecodeCopy(fmt, ctrl, s[ip..], output[..op], output.Length);
        var ok, len, back, next := ReadOperands(fmt, s, ip, ctrl);
        if !ok { return None; }
        assert s[ip..][next - ip..] == s[next..];
        ip := next;
        if op + len + 3 > output.Length { return Some(0); }
        if back + 1 > op { return Some(0); }
        if ip < |s| {
          assert s[ip..] == [s[ip]] + s[ip + 1..];
          ctrl := s[ip];
          ip := ip + 1;
        } else {
          loop := false;
        }
        op := CopyReference(strictAlign, output, op, back, len);
      } else {
        DecodeRun(fmt, ctrl, s[ip..], output[..op], output.Length);
        var run: nat := ctrl;
        run := run + 1;
        if op + run > output.Length { return Some(0); }
        if ip + run > |s| { return Some(0); }
        assert s[ip..][..run] == s[ip..ip + run] && s[ip..][run..] == s[ip + run..];
        op := PutAll(output, op, s, ip, run);
        ip := ip + run;
        loop := ip < |s|;
        if loop {
          assert s[ip..] == [s[ip]] + s[ip + 1..];
          ctrl := s[ip];
          ip := ip + 1;
        }
      }
    }
    return Some(op);
  }
}
