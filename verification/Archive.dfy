/**
 The uncompressed backup archive: a magic tag, then each statement behind its length as
 eight big-endian bytes.
 */
module Archive {
  import opened Prelude
  import opened GoText

  const DUMP_MAGIC: Text := "CBBK1"
  const HEADER: nat := 8

  /** Go's len fits the 64-bit header, so every Go string does. */
  predicate Framable(s: Text) {
    |s| < Pow256(HEADER)
  }

  function Pow256(k: nat): (p: nat)
    ensures p > 0
  {
    if k == 0 then 1 else 256 * Pow256(k - 1)
  }

  /** The low k bytes of n, most significant first (binary.BigEndian.PutUint64 for k = 8). */
  function BigEndian(n: nat, k: nat): (bytes: Text)
    ensures |bytes| == k
  {
    if k == 0 then [] else BigEndian(n / 256, k - 1) + [(n % 256) as char]
  }

  /** binary.BigEndian.Uint64 */
  function FromBigEndian(bytes: Text): nat {
    if bytes == [] then 0
    else FromBigEndian(bytes[..|bytes| - 1]) * 256 + bytes[|bytes| - 1] as int
  }

  function Frame(s: Text): Text {
    BigEndian(|s|, HEADER) + s
  }

  function Frames(statements: seq<Text>): Text {
    if statements == [] then [] else Frame(statements[0]) + Frames(statements[1..])
  }

  function Encode(statements: seq<Text>): Text {
    DUMP_MAGIC + Frames(statements)
  }

  /** The statements read so far followed by those a reader still finds, if it finds any. */
  function Then(read: seq<Text>, more: Option<seq<Text>>): Option<seq<Text>> {
    if more.None? then None else Some(read + more.value)
  }

  /** Reads frames until the bytes run out; a short header or a short body is an error. */
  function ReadFrames(r: Text): Option<seq<Text>> {
    if r == [] then Some([])
    else if |r| < HEADER then None
    else
      var n := FromBigEndian(r[..HEADER]);
      if |r| < HEADER + n then None
      else
        Then([r[HEADER..HEADER + n]], ReadFrames(r[HEADER + n..]))
  }

  function Decode(raw: Text): Option<seq<Text>> {
    if |raw| < |DUMP_MAGIC| || raw[..|DUMP_MAGIC|] != DUMP_MAGIC then None
    else ReadFrames(raw[|DUMP_MAGIC|..])
  }

  /** encodeArchive without its gzip layer. */
  method EncodeArchive(statements: seq<Text>) returns (raw: Text)
    ensures raw == Encode(statements)
    ensures (forall s | s in statements :: Framable(s)) ==> Decode(raw) == Some(statements)
  {
    hide Frame;
    raw := DUMP_MAGIC;
    for i := 0 to |statements|
      invariant raw == DUMP_MAGIC + Frames(statements[..i])
    {
      assert statements[..i + 1] == statements[..i] + [statements[i]];
      FramesSnoc(statements[..i], statements[i]);
      var lenBuf := BigEndian(|statements[i]|, HEADER);
      FrameIs(statements[i], lenBuf);
      raw := raw + (lenBuf + statements[i]);
    }
    assert statements[..|statements|] == statements;
    assert (forall s | s in statements :: Framable(s)) ==> Decode(raw) == Some(statements) by {
      if forall s | s in statements :: Framable(s) {
        DecodeOfEncode(statements);
      }
    }
  }

  /** decodeArchive without its gzip layer: a reader position that advances frame by frame. */
  method DecodeArchive(raw: Text) returns (statements: Option<seq<Text>>)
    ensures statements == Decode(raw)
    ensures statements.Some? ==> Encode(statements.value) == raw
  {
    if |raw| < |DUMP_MAGIC| || raw[..|DUMP_MAGIC|] != DUMP_MAGIC {
      return None;
    }
    var pos, read: seq<Text> := |DUMP_MAGIC|, [];
    ThenNothing(ReadFrames(raw[pos..]));
    while pos < |raw|
      invariant |DUMP_MAGIC| <= pos <= |raw|
      invariant Decode(raw) == Then(read, ReadFrames(raw[pos..]))
    {
      if |raw| - pos < HEADER {
        return None;
      }
      ghost var r := raw[pos..];
      var n := FromBigEndian(raw[pos..pos + HEADER]);
      assert r[..HEADER] == raw[pos..pos + HEADER];
      pos := pos + HEADER;
      if |raw| - pos < n {
        return None;
      }
      var buf := raw[pos..pos + n];
      pos := pos + n;
      ReadFramesAt(raw, pos - HEADER - n, n);
      ThenThen(read, buf, ReadFrames(raw[pos..]));
      read := read + [buf];
    }
    assert raw[pos..] == [];
    assert read + [] == read;
    DecodedIsEncoding(raw, read);
    return Some(read);
  }

  lemma FrameIs(s: Text, header: Text)
    requires header == BigEndian(|s|, HEADER)
    ensures Frame(s) == header + s
  {
  }

  lemma ThenNothing(more: Option<seq<Text>>)
    ensures Then([], more) == more
  {
    if more.Some? {
      assert [] + more.value == more.value;
    }
  }

  lemma ThenThen(read: seq<Text>, s: Text, more: Option<seq<Text>>)
    ensures Then(read, Then([s], more)) == Then(read + [s], more)
  {
    if more.Some? {
      assert read + ([s] + more.value) == read + [s] + more.value;
    }
  }

  lemma ReadFramesAt(raw: Text, pos: nat, n: nat)
    requires pos + HEADER + n <= |raw| && n == FromBigEndian(raw[pos..pos + HEADER])
    ensures ReadFrames(raw[pos..])
         == Then([raw[pos + HEADER..pos + HEADER + n]], ReadFrames(raw[pos + HEADER + n..]))
  {
    var r := raw[pos..];
    assert r[..HEADER] == raw[pos..pos + HEADER];
    assert r[HEADER..HEADER + n] == raw[pos + HEADER..pos + HEADER + n];
    assert r[HEADER + n..] == raw[pos + HEADER + n..];
  }

  lemma {:induction false} FramesSnoc(ss: seq<Text>, s: Text)
    ensures Frames(ss + [s]) == Frames(ss) + Frame(s)
  {
    if ss == [] {
      assert ss + [s] == [s];
      assert [s][1..] == [];
    } else {
      assert (ss + [s])[1..] == ss[1..] + [s];
      FramesSnoc(ss[1..], s);
    }
  }

  lemma {:induction false} BigEndianRoundTrip(n: nat, k: nat)
    requires n < Pow256(k)
    ensures FromBigEndian(BigEndian(n, k)) == n
  {
    if k > 0 {
      BigEndianRoundTrip(n / 256, k - 1);
      assert BigEndian(n, k)[..k - 1] == BigEndian(n / 256, k - 1);
    }
  }

  lemma {:induction false} FromBigEndianRoundTrip(bytes: Text)
    ensures FromBigEndian(bytes) < Pow256(|bytes|)
    ensures BigEndian(FromBigEndian(bytes), |bytes|) == bytes
  {
    if bytes != [] {
      var high := bytes[..|bytes| - 1];
      FromBigEndianRoundTrip(high);
      assert bytes == high + [bytes[|bytes| - 1]];
      var low := bytes[|bytes| - 1] as int;
      assert (FromBigEndian(high) * 256 + low) / 256 == FromBigEndian(high);
      assert (FromBigEndian(high) * 256 + low) % 256 == low;
    }
  }

  /** One frame in front of anything is read back whole. */
  lemma ReadFirstFrame(s: Text, rest: Text)
    requires Framable(s)
    ensures ReadFrames(Frame(s) + rest) == Then([s], ReadFrames(rest))
  {
    var r := Frame(s) + rest;
    BigEndianRoundTrip(|s|, HEADER);
    assert r[..HEADER] == BigEndian(|s|, HEADER);
    assert r[HEADER..HEADER + |s|] == s;
    assert r[HEADER + |s|..] == rest;
  }

  lemma {:induction false} ReadFramesOfFrames(ss: seq<Text>)
    requires forall s | s in ss :: Framable(s)
    ensures ReadFrames(Frames(ss)) == Some(ss)
  {
    if ss != [] {
      ReadFirstFrame(ss[0], Frames(ss[1..]));
      ReadFramesOfFrames(ss[1..]);
      assert ss == [ss[0]] + ss[1..];
    }
  }

  lemma DecodeOfEncode(ss: seq<Text>)
    requires forall s | s in ss :: Framable(s)
    ensures Decode(Encode(ss)) == Some(ss)
  {
    ReadFramesOfFrames(ss);
    assert Encode(ss)[..|DUMP_MAGIC|] == DUMP_MAGIC;
    assert Encode(ss)[|DUMP_MAGIC|..] == Frames(ss);
  }

  lemma {:induction false} FramesOfReadFrames(r: Text)
    requires ReadFrames(r).Some?
    ensures Frames(ReadFrames(r).value) == r
    ensures forall s | s in ReadFrames(r).value :: Framable(s)
  {
    if r != [] {
      var n := FromBigEndian(r[..HEADER]);
      FramesOfReadFrames(r[HEADER + n..]);
      FromBigEndianRoundTrip(r[..HEADER]);
      var s := r[HEADER..HEADER + n];
      assert r == r[..HEADER] + s + r[HEADER + n..];
    }
  }

  lemma DecodedIsEncoding(raw: Text, ss: seq<Text>)
    requires Decode(raw) == Some(ss)
    ensures Encode(ss) == raw
    ensures forall s | s in ss :: Framable(s)
  {
    FramesOfReadFrames(raw[|DUMP_MAGIC|..]);
    assert raw == DUMP_MAGIC + raw[|DUMP_MAGIC|..];
  }

  /** The format is a bijection between archives that decode and lists of framable statements. */
  lemma ArchiveBijection(raw: Text, ss: seq<Text>)
    ensures Decode(raw) == Some(ss) <==> Encode(ss) == raw && forall s | s in ss :: Framable(s)
  {
    if Decode(raw) == Some(ss) {
      DecodedIsEncoding(raw, ss);
    }
    if Encode(ss) == raw && forall s | s in ss :: Framable(s) {
      DecodeOfEncode(ss);
    }
  }

  lemma {:induction false} ReadFramesOfPrefix(r: Text, k: nat)
    requires k <= |r| && ReadFrames(r).Some? && ReadFrames(r[..k]).Some?
    ensures ReadFrames(r[..k]).value <= ReadFrames(r).value
  {
    if k > 0 {
      var n := FromBigEndian(r[..HEADER]);
      assert r[..k][..HEADER] == r[..HEADER];
      assert r[..k][HEADER..HEADER + n] == r[HEADER..HEADER + n];
      assert r[..k][HEADER + n..] == r[HEADER + n..][..k - HEADER - n];
      ReadFramesOfPrefix(r[HEADER + n..], k - HEADER - n);
    }
  }

  /** A truncated archive is refused or yields a prefix of the statements, never others. */
  lemma DecodeOfTruncated(ss: seq<Text>, k: nat)
    requires (forall s | s in ss :: Framable(s)) && k <= |Encode(ss)|
    ensures Decode(Encode(ss)[..k]).Some? ==> Decode(Encode(ss)[..k]).value <= ss
  {
    DecodeOfEncode(ss);
    var raw := Encode(ss);
    if Decode(raw[..k]).Some? {
      var m := |DUMP_MAGIC|;
      assert raw[..k][m..] == raw[m..][..k - m];
      ReadFramesOfPrefix(raw[m..], k - m);
    }
  }

  /** The bytes themselves, for a statement whose length fits one byte: the tag, seven zeros, the length, the text. */
  lemma ShortArchive(s: Text)
    requires |s| < 256
    ensures Encode([]) == "CBBK1" && |Encode([s])| == 13 + |s|
    ensures Encode([s])[..5] == "CBBK1" && Encode([s])[13..] == s
    ensures Encode([s])[12] as int == |s| && forall i | 5 <= i < 12 :: Encode([s])[i] as int == 0
  {
    hide BigEndian;
    ShortHeader(|s|);
    assert [s][1..] == [] && Frames([s]) == Frame(s) + [];
    var header := BigEndian(|s|, HEADER);
    assert Encode([s]) == DUMP_MAGIC + (header + s);
    assert forall i | 5 <= i < 13 :: Encode([s])[i] == header[i - 5];
  }

  lemma ShortHeader(n: nat)
    requires n < 256
    ensures BigEndian(n, 8)[7] as int == n && forall i | 0 <= i < 7 :: BigEndian(n, 8)[i] as int == 0
  {
    ZeroHeader(7);
    assert BigEndian(n, 8) == BigEndian(n / 256, 7) + [n as char];
  }

  lemma {:induction false} ZeroHeader(k: nat)
    ensures forall i | 0 <= i < k :: BigEndian(0, k)[i] == 0 as char
  {
    if k > 0 {
      ZeroHeader(k - 1);
    }
  }
}
