/**
  The name part of the Linux `ifreq` interface request block (netdevice(7)):
  a fixed 16-byte buffer that holds a NUL-terminated interface name, the
  constructor that fills it from a name, and the accessor that reads it back.
 */
module Request {
  import opened Utf8

  /** The kernel's interface-name size, terminator included. */
  const IFNAMSIZ: nat := 16

  /** The longest name the constructor copies: one byte is kept for the NUL. */
  const MaxNameLen: nat := IFNAMSIZ - 1

  /** The `ifrn_name` buffer: exactly IFNAMSIZ bytes. */
  type NameBuf = s: seq<Byte> | |s| == IFNAMSIZ witness seq(IFNAMSIZ, i => 0)

  /** An interface request block; only its name region is modelled. */
  datatype IfReq = IfReq(ifrName: NameBuf)

  /** Why the constructor aborts. */
  datatype Error = SliceNotOnCharBoundary(index: nat)

  /** The outcome of the constructor: a block, or a panic. */
  datatype Result<T> = Ok(value: T) | Panic(error: Error)

  function Min(a: nat, b: nat): nat {
    if a <= b then a else b
  }

  /** A block whose bytes are all zero. */
  function Zeroed(): (req: IfReq)
    ensures forall i :: 0 <= i < IFNAMSIZ ==> req.ifrName[i] == 0
  {
    IfReq(seq(IFNAMSIZ, i => 0))
  }

  /** The effect of copying the first `count` bytes of `src` over the start
      of `dst`: those bytes are replaced, every other byte keeps its value. */
  function CopyNonoverlapping(src: seq<Byte>, dst: seq<Byte>, count: nat): (r: seq<Byte>)
    requires count <= |src| && count <= |dst|
    ensures |r| == |dst|
    ensures forall i :: 0 <= i < count ==> r[i] == src[i]
    ensures forall i :: count <= i < |dst| ==> r[i] == dst[i]
  {
    src[..count] + dst[count..]
  }

  /** The constructor: start from an all-zero block and, for a non-empty
      name, copy its first min(|name|, 15) bytes into the name buffer.
      Slicing the name at byte 15 panics when that byte lies inside a
      multi-byte character. */
  function New(name: seq<Byte>): (r: Result<IfReq>)
    ensures r.Ok? <==> |name| <= MaxNameLen || !IsContinuation(name[MaxNameLen])
    ensures r.Panic? ==> r.error == SliceNotOnCharBoundary(MaxNameLen)
    ensures r.Ok? ==> r.value.ifrName[MaxNameLen] == 0
    ensures r.Ok? ==> forall i :: 0 <= i < Min(|name|, MaxNameLen) ==> r.value.ifrName[i] == name[i]
    ensures r.Ok? ==> forall i :: Min(|name|, MaxNameLen) <= i < IFNAMSIZ ==> r.value.ifrName[i] == 0
  {
    var req := Zeroed();
    if |name| == 0 then Ok(req)
    else
      var len := Min(|name|, MaxNameLen);
      if !IsCharBoundary(name, len) then Panic(SliceNotOnCharBoundary(len))
      else Ok(IfReq(CopyNonoverlapping(name[..len], req.ifrName, len)))
  }

  /** The length of the C string at the start of `s`: the index of the first
      zero byte, or |s| when there is none. */
  function CStrLen(s: seq<Byte>): (n: nat)
    ensures n <= |s|
    ensures forall i :: 0 <= i < n ==> s[i] != 0
    ensures n < |s| ==> s[n] == 0
    ensures n == |s| <==> 0 !in s
  {
    if |s| == 0 || s[0] == 0 then 0
    else
      assert s == [s[0]] + s[1..];
      1 + CStrLen(s[1..])
  }

  /** The accessor: the bytes of the name buffer before its first NUL.
      Reading a C string from the buffer is only defined when it holds a
      terminator. */
  function Name(req: IfReq): (r: seq<Byte>)
    requires 0 in req.ifrName
    ensures |r| < IFNAMSIZ
    ensures r == req.ifrName[..|r|]
    ensures 0 !in r
    ensures req.ifrName[|r|] == 0
  {
    req.ifrName[..CStrLen(req.ifrName)]
  }
}
