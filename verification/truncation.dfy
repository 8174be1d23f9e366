/**
  A corrected constructor: a long name is shortened to the last character
  boundary at or before byte 15, so a well-formed name never makes it abort.
  It agrees with `Request.New` on every name that constructor accepts.
 */
module Truncation {
  import opened Utf8
  import opened Request
  import RequestProperties

  /** The largest character boundary of `s` that is at most `k`. */
  function FloorCharBoundary(s: seq<Byte>, k: nat): (j: nat)
    requires k <= |s|
    ensures j <= k && IsCharBoundary(s, j)
    ensures forall i :: j < i <= k ==> !IsCharBoundary(s, i)
    decreases k
  {
    if IsCharBoundary(s, k) then k else FloorCharBoundary(s, k - 1)
  }

  /** The constructor with the cut moved back to a character boundary; it
      never fails. */
  function NewTruncating(name: seq<Byte>): (req: IfReq)
    ensures req.ifrName[MaxNameLen] == 0
  {
    var zeroed := Zeroed();
    if |name| == 0 then zeroed
    else
      var len := TruncatedLen(name);
      IfReq(CopyNonoverlapping(name[..len], zeroed.ifrName, len))
  }

  /** The number of bytes `NewTruncating` copies. */
  function TruncatedLen(name: seq<Byte>): (len: nat)
    ensures len <= Min(|name|, MaxNameLen)
  {
    FloorCharBoundary(name, Min(|name|, MaxNameLen))
  }

  /** What `NewTruncating` writes: the longest prefix of at most 15 bytes
      that ends on a character boundary, and zeros after it. */
  lemma NewTruncatingContents(name: seq<Byte>)
    ensures IsCharBoundary(name, TruncatedLen(name))
    ensures forall i :: TruncatedLen(name) < i <= Min(|name|, MaxNameLen) ==> !IsCharBoundary(name, i)
    ensures forall i :: 0 <= i < TruncatedLen(name) ==> NewTruncating(name).ifrName[i] == name[i]
    ensures forall i :: TruncatedLen(name) <= i < IFNAMSIZ ==> NewTruncating(name).ifrName[i] == 0
  {
  }

  /** Wherever the constructor as written succeeds, the corrected one builds
      the same block. */
  lemma NewTruncatingAgreesWithNew(name: seq<Byte>)
    requires New(name).Ok?
    ensures NewTruncating(name) == New(name).value
  {
    var a := NewTruncating(name).ifrName;
    var b := New(name).value.ifrName;
    forall i | 0 <= i < IFNAMSIZ
      ensures a[i] == b[i]
    {
    }
  }

  /** The corrected constructor always yields a name that reads back as
      well-formed UTF-8 when the given name is well-formed. */
  lemma NewTruncatingIsValidUtf8(name: seq<Byte>)
    requires ValidUtf8(name)
    ensures 0 in NewTruncating(name).ifrName
    ensures ValidUtf8(Name(NewTruncating(name)))
  {
    var buf := NewTruncating(name).ifrName;
    var len := TruncatedLen(name);
    var c := name[..len];
    NewTruncatingContents(name);
    assert buf[..len] == c;
    RequestProperties.NameOfPrefixed(c, buf);
    PrefixAtBoundaryIsValid(name, len);
    // The first NUL is a one-byte character, so the cut before it is a boundary.
    PrefixAtBoundaryIsValid(c, CStrLen(c));
  }

  /** A 16-byte name: fourteen `a` bytes and then `é` (C3 A9), whose second
      byte sits at index 15. */
  function SplitName(): seq<Byte> {
    seq(14, i => 0x61) + [0xC3, 0xA9]
  }

  /** The name is well-formed UTF-8. */
  lemma SplitNameIsValid()
    ensures ValidUtf8(SplitName())
  {
    var s := SplitName();
    assert CharWidth(s[14..]) == 2;
    var i := 14;
    while i > 0
      invariant 0 <= i <= 14
      invariant ValidUtf8(s[i..])
      decreases i
    {
      i := i - 1;
      assert CharWidth(s[i..]) == 1;
      assert s[i..][1..] == s[i + 1..];
    }
    assert s[0..] == s;
  }

  /** The corrected constructor keeps the fourteen `a` bytes of it. */
  lemma SplitNameTruncated()
    ensures 0 in NewTruncating(SplitName()).ifrName
    ensures Name(NewTruncating(SplitName())) == seq(14, i => 0x61)
  {
    var s := SplitName();
    var c := seq(14, i => 0x61);
    assert s[14] == 0xC3 && s[15] == 0xA9;
    assert TruncatedLen(s) == 14;
    assert s[..14] == c;
    var buf := NewTruncating(s).ifrName;
    NewTruncatingContents(s);
    assert buf[..14] == c;
    RequestProperties.NameOfPrefixed(c, buf);
    RequestProperties.CStrLenUnique(c, 14);
  }

  /** The constructor as written panics on a well-formed name, while the
      corrected one keeps the fourteen `a` bytes. */
  lemma SplitNameCounterexample()
    ensures ValidUtf8(SplitName())
    ensures New(SplitName()) == Panic(SliceNotOnCharBoundary(MaxNameLen))
    ensures Name(NewTruncating(SplitName())) == seq(14, i => 0x61)
  {
    SplitNameIsValid();
    SplitNameTruncated();
    assert |SplitName()| == 16 && SplitName()[15] == 0xA9;
  }
}
