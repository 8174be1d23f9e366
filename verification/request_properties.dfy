/**
  What the constructor and the accessor of the interface request block
  promise together: the empty name, the round trip for short names, the
  truncation rule for long names, the cut at an interior NUL, and that the
  bytes read back are well-formed UTF-8 whenever the name was.
 */
module RequestProperties {
  import opened Utf8
  import opened Request

  /** The bytes the constructor copies from a name it accepts. */
  function Copied(name: seq<Byte>): seq<Byte> {
    name[..Min(|name|, MaxNameLen)]
  }

  /** The first-NUL index is the only index with no NUL before it and a NUL
      (or the end) at it. */
  lemma CStrLenUnique(s: seq<Byte>, n: nat)
    requires n <= |s|
    requires forall i :: 0 <= i < n ==> s[i] != 0
    requires n < |s| ==> s[n] == 0
    ensures CStrLen(s) == n
  {
  }

  /** A buffer that starts with the bytes `c` followed by a zero byte reads
      back as `c` up to its first NUL. */
  lemma NameOfPrefixed(c: seq<Byte>, buf: NameBuf)
    requires |c| < IFNAMSIZ && buf[..|c|] == c && buf[|c|] == 0
    ensures 0 in buf
    ensures Name(IfReq(buf)) == c[..CStrLen(c)]
  {
    var n := CStrLen(c);
    forall i | 0 <= i < n
      ensures buf[i] != 0
    {
      assert buf[i] == buf[..|c|][i];
    }
    if n < |c| {
      assert buf[n] == buf[..|c|][n];
    }
    CStrLenUnique(buf, n);
    assert buf[..n] == c[..n];
  }

  /** The general read-back law: reading the name of a constructed block
      yields the copied bytes up to their first NUL. */
  lemma NameOfNew(name: seq<Byte>)
    requires New(name).Ok?
    ensures 0 in New(name).value.ifrName
    ensures Name(New(name).value) == Copied(name)[..CStrLen(Copied(name))]
  {
    var buf := New(name).value.ifrName;
    var c := Copied(name);
    assert buf[..|c|] == c;
    NameOfPrefixed(c, buf);
  }

  /** The empty name gives an all-zero buffer, and reads back as empty. */
  lemma EmptyName()
    ensures New([]).Ok?
    ensures forall i :: 0 <= i < IFNAMSIZ ==> New([]).value.ifrName[i] == 0
    ensures Name(New([]).value) == []
  {
  }

  /** A name of at most 15 bytes without a NUL survives the round trip. */
  lemma RoundTripShort(name: seq<Byte>)
    requires |name| <= MaxNameLen && 0 !in name
    ensures New(name).Ok?
    ensures Name(New(name).value) == name
  {
    NameOfNew(name);
    assert Copied(name) == name;
  }

  /** A longer name cut on a character boundary reads back as its first 15
      bytes when those hold no NUL. */
  lemma RoundTripTruncated(name: seq<Byte>)
    requires |name| > MaxNameLen && !IsContinuation(name[MaxNameLen])
    requires 0 !in name[..MaxNameLen]
    ensures New(name).Ok?
    ensures Name(New(name).value) == name[..MaxNameLen]
  {
    NameOfNew(name);
  }

  /** A longer name whose byte 15 lies inside a character is refused rather
      than cut shorter. */
  lemma SplitCharacterPanics(name: seq<Byte>)
    requires |name| > MaxNameLen && IsContinuation(name[MaxNameLen])
    ensures New(name) == Panic(SliceNotOnCharBoundary(MaxNameLen))
  {
  }

  /** A NUL inside the copied bytes ends the name read back: only the part
      before the first NUL is returned. */
  lemma InteriorNulCutsName(name: seq<Byte>, k: nat)
    requires New(name).Ok?
    requires k < Min(|name|, MaxNameLen) && name[k] == 0 && 0 !in name[..k]
    ensures Name(New(name).value) == name[..k]
  {
    NameOfNew(name);
    var c := Copied(name);
    assert c[k] == 0;
    assert c[..k] == name[..k];
  }

  /** The accessor decodes without checking; that is sound for blocks built
      by the constructor: a well-formed name reads back well-formed. */
  lemma NameOfNewIsValidUtf8(name: seq<Byte>)
    requires ValidUtf8(name) && New(name).Ok?
    ensures ValidUtf8(Name(New(name).value))
  {
    NameOfNew(name);
    var len := Min(|name|, MaxNameLen);
    PrefixAtBoundaryIsValid(name, len);
    var c := Copied(name);
    var n := CStrLen(c);
    // The first NUL is a one-byte character, so the cut before it is a boundary.
    PrefixAtBoundaryIsValid(c, n);
  }

  /** The bytes of an ASCII string. */
  function AsciiBytes(s: string): (b: seq<Byte>)
    requires forall i :: 0 <= i < |s| ==> s[i] < 128 as char
    ensures |b| == |s|
  {
    seq(|s|, i requires 0 <= i < |s| => s[i] as int)
  }

  /** `eth0` fills the first four bytes; the other twelve stay zero. */
  lemma ExampleEth0()
    ensures New(AsciiBytes("eth0")).Ok?
    ensures New(AsciiBytes("eth0")).value.ifrName
            == [0x65, 0x74, 0x68, 0x30] + seq(12, i => 0)
    ensures Name(New(AsciiBytes("eth0")).value) == AsciiBytes("eth0")
  {
    RoundTripShort(AsciiBytes("eth0"));
  }

  /** A 16-byte ASCII name loses its last byte. */
  lemma ExampleSixteenBytes()
    ensures New(AsciiBytes("enP1s0f0np0extra")).Ok?
    ensures Name(New(AsciiBytes("enP1s0f0np0extra")).value) == AsciiBytes("enP1s0f0np0extr")
  {
    var name := AsciiBytes("enP1s0f0np0extra");
    RoundTripTruncated(name);
    assert name[..MaxNameLen] == AsciiBytes("enP1s0f0np0extr");
  }
}
