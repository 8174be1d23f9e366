# Interface-name handling of the Linux `ifreq` request block

This project models, in Dafny, the name handling of the `ifreq` block of
tokio-tun. The block is the request that the Linux network-device ioctls
take (netdevice(7)). The block starts with `ifrn_name`, a 16-byte
(`IFNAMSIZ`) buffer that holds a NUL-terminated interface name. Two
operations use it:

- `ifreq::new(name)` zero-fills the block. For a non-empty name it copies
  the first `min(len, 15)` bytes of the name into the buffer. That slice of
  the name panics when byte 15 lies inside a multi-byte UTF-8 character.
- `ifreq::name()` reads the buffer back as the bytes before its first zero
  byte. It does not re-check them as UTF-8.

Modules:

- `Utf8` (`utf8.dfy`) defines bytes, continuation bytes and the character
  boundary test that Rust applies before slicing a `str`. It also defines
  well-formed UTF-8, following the ABNF in RFC 3629, section 4. It proves
  that a cut at a character boundary keeps well-formed text well-formed.
- `Request` (`request.dfy`) holds `IFNAMSIZ`, the 16-byte name buffer, the
  block, the constructor `New` and the accessor `Name`. `New` returns a
  `Result` whose `Panic` case stands for the slice panic. `Name` requires a
  zero byte in the buffer, because reading a C string without one is
  undefined.
- `RequestProperties` (`request_properties.dfy`) proves what `New` and
  `Name` give together. It covers the empty name, the round trip, the
  truncation rule, the cut at an interior NUL, and the UTF-8 soundness of
  the unchecked decode.
- `Truncation` (`truncation.dfy`) is the corrected constructor of the
  finding below. It proves that this constructor agrees with `New` wherever
  `New` succeeds.

The comment at src/linux/request.rs:85-86 says only that the cut must not
split a character. The copy at lines 89-93 takes `len` bytes from the
original name whatever the slice returns, so the slice at line 87 acts only
as a boundary guard. The defect is that a public constructor aborts on a
well-formed name. Plausibly it was meant to shorten such a name to the last
character boundary instead. `Request.New` follows the code. The shortening
behaviour is `Truncation.NewTruncating` (see "## Findings").

## Model

| member | source | states |
|---|---|---|
| Request.New | src/linux/request.rs:81-97 | Construction fails exactly when the name is longer than 15 bytes and byte 15 is a UTF-8 continuation byte, and the panic is at index 15. On success the first min(len, 15) bytes of the buffer are the name's bytes and every later byte up to 16 is zero, so byte 15 is always a terminator. |
| Request.Zeroed | src/linux/request.rs:82 | A fresh block's name buffer is sixteen zero bytes. |
| Request.CopyNonoverlapping | src/linux/request.rs:89-93 | Copying `count` bytes replaces exactly the first `count` bytes of the destination with the source's and leaves every other byte as it was. |
| Request.CStrLen | src/linux/request.rs:101 | The C-string length is the index of the first zero byte: no zero before it, a zero at it, and it equals the length exactly when the bytes hold no zero. |
| Request.Name | src/linux/request.rs:99-103 | For a buffer that holds a terminator, the name read back is a prefix of the buffer shorter than 16 bytes, contains no zero byte, and is followed by a zero byte. |
| RequestProperties.CStrLenUnique | src/linux/request.rs:101 | Any index with no zero byte before it and a zero (or the end) at it is the C-string length. |
| RequestProperties.NameOfPrefixed | src/linux/request.rs:101 | A buffer holding some bytes followed by a zero byte has a terminator and reads back as those bytes cut at their first zero byte. |
| RequestProperties.NameOfNew | src/linux/request.rs:81-103 | A successfully built block has a terminator, and reads back as the copied min(len, 15) bytes cut at their first zero byte. |
| RequestProperties.EmptyName | src/linux/request.rs:82-83 | The empty name builds an all-zero buffer and reads back as the empty name. |
| RequestProperties.RoundTripShort | src/linux/request.rs:84-101 | A name of at most 15 bytes with no zero byte is accepted and reads back unchanged. |
| RequestProperties.RoundTripTruncated | src/linux/request.rs:84-93 | A longer name whose byte 15 is not a continuation byte, and whose first 15 bytes hold no zero, reads back as exactly its first 15 bytes. |
| RequestProperties.SplitCharacterPanics | src/linux/request.rs:84-87 | A longer name whose byte 15 is a continuation byte is refused with a panic at index 15, not cut shorter. |
| RequestProperties.InteriorNulCutsName | src/linux/request.rs:101 | When the copied bytes contain a zero byte, the name reads back as only the bytes before the first one. |
| RequestProperties.NameOfNewIsValidUtf8 | src/linux/request.rs:84-101 | For a well-formed UTF-8 name that is accepted, the bytes read back are well-formed UTF-8 too, so the unchecked decode in `name()` is sound for such blocks. |
| RequestProperties.ExampleEth0 | src/linux/request.rs:81-97 | `eth0` fills the buffer as its four bytes followed by twelve zero bytes and reads back as `eth0`. |
| RequestProperties.ExampleSixteenBytes | src/linux/request.rs:84-93 | The 16-byte name `enP1s0f0np0extra` reads back as `enP1s0f0np0extr`. |
| Utf8.PrefixAtBoundaryIsValid | src/linux/request.rs:85-87 | Cutting well-formed UTF-8 at a character boundary gives well-formed UTF-8. |
| Truncation.FloorCharBoundary | src/linux/request.rs:84-87 | Returns the largest character boundary at or below the given index: it is a boundary, and no index above it up to the bound is one. |
| Truncation.NewTruncating | src/linux/request.rs:81-97 | The corrected constructor never fails and always leaves byte 15 zero. |
| Truncation.TruncatedLen | src/linux/request.rs:84 | The corrected constructor copies at most min(len, 15) bytes. |
| Truncation.NewTruncatingContents | src/linux/request.rs:84-93 | The corrected constructor copies the longest prefix of at most 15 bytes that ends on a character boundary, and leaves the rest of the buffer zero. |
| Truncation.NewTruncatingAgreesWithNew | src/linux/request.rs:81-97 | On every name the constructor as written accepts, the corrected constructor builds the same block. |
| Truncation.NewTruncatingIsValidUtf8 | src/linux/request.rs:84-101 | For every well-formed UTF-8 name, the corrected block has a terminator and reads back as well-formed UTF-8. |
| Truncation.SplitNameCounterexample | src/linux/request.rs:84-87 | The well-formed 16-byte name of fourteen `a` bytes and `é` makes the constructor as written panic, while the corrected constructor reads back the fourteen `a` bytes. |

## Left out

- The `ifreq_ifru` payload union (src/linux/request.rs:38-53): it is untagged overlapping memory with no logic. The zero-fill that `new` also gives the payload is not modelled.
- `sockaddr`, `ifmap`, the `align` members and the `#[repr(C)]` sizes, alignment and padding are platform ABI facts. The verifier cannot check them against kernel headers.
- `in6_ifreq` and `in6_addr` are plain data holders over a `libc` type that is not part of this model.
- The `ifru_data` raw pointer and the `unsafe` pointer mechanics are not modelled. `ptr::copy_nonoverlapping` is modelled only by its byte-level effect (`CopyNonoverlapping`). `CStr::from_ptr` is modelled as `CStrLen` plus a slice.
- `from_utf8_unchecked` is modelled as the identity on bytes: `Name` returns bytes, not a `str`.
- The ioctl call and socket handling are external I/O.
- Request.New: takes any byte sequence rather than only well-formed UTF-8. The slice test in the code looks only at byte 15, so the result does not depend on well-formedness. UTF-8 validity appears only in the lemmas about the bytes read back.
- Request.Name: requires a zero byte in the buffer. Reading a C string without one runs past the buffer, which is undefined behaviour, so that case is not modelled.
- `c_char` is signed on some targets. The model treats every byte as 0..255, which does not change a copy or a search for a zero byte.

## Findings

| source | as written | input that shows it | evidently intended | confidence | as-written member | corrected member |
|---|---|---|---|---|---|---|
| src/linux/request.rs:84-87 | `&name[..15]` panics when byte 15 of a name longer than 15 bytes is a UTF-8 continuation byte | fourteen `a` bytes followed by `é` (bytes C3 A9), a 16-byte well-formed name | plausibly: shorten the name to the last character boundary at or before byte 15, so that a public constructor does not abort on a well-formed name; the comment at lines 85-86 only says the cut must not split a character | medium, not executed | Request.New (shown by Truncation.SplitNameCounterexample) | Truncation.NewTruncating (Truncation.NewTruncatingAgreesWithNew, Truncation.NewTruncatingIsValidUtf8) |
