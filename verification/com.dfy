/**
  The slice of the DeckLink COM-style interface that ConvertedVideoFrame
  implements: integer widths, HRESULT codes, interface identifiers and the
  frame flag and pixel format tags.
 */
module Com {

  /**
    A C++ `long` on the modelled platform, LP64 (Linux, macOS): 64 bits.
    On Windows, where the addon also builds, `long` is 32 bits.
   */
  type Long = x: int | -0x8000_0000_0000_0000 <= x < 0x8000_0000_0000_0000

  /** ULONG, the 32-bit unsigned return type of AddRef and Release. */
  type Ulong = x: int | 0 <= x < 0x1_0000_0000

  /** A 32-bit unsigned tag, as used for BMDPixelFormat, BMDDisplayMode and flag words. */
  type Uint32 = x: int | 0 <= x < 0x1_0000_0000

  type PixelFormat = Uint32

  /** Conversion of a signed count to ULONG: the value modulo 2^32. */
  function ToUlong(n: int): (u: Ulong)
    ensures 0 <= n < 0x1_0000_0000 ==> u == n
    ensures u == 0 <==> n % 0x1_0000_0000 == 0
    ensures (u - n) % 0x1_0000_0000 == 0
  {
    n % 0x1_0000_0000
  }

  /** Conversion of a signed product to `size_t`, the argument type of malloc: modulo 2^64. */
  function ToSizeT(n: int): (s: nat)
    ensures s < 0x1_0000_0000_0000_0000
    ensures 0 <= n < 0x1_0000_0000_0000_0000 ==> s == n
    ensures (s - n) % 0x1_0000_0000_0000_0000 == 0
  {
    n % 0x1_0000_0000_0000_0000
  }

  /**
    The HRESULT codes this core produces or inspects. S_OK is also spelled
    NOERROR; S_FALSE is a success code that reports "nothing to give".
    Any other code a driver query may answer is EFail.
   */
  datatype HResult = SOk | SFalse | EInvalidArg | ENoInterface | EFail

  /** NOERROR is the same code as S_OK. */
  const NoError: HResult := SOk

  /** The SUCCEEDED macro: the code is not an error. */
  predicate Succeeded(hr: HResult) {
    hr == SOk || hr == SFalse
  }

  /** The last eight bytes of a GUID. */
  type GuidTail = s: seq<bv8> | |s| == 8 witness [0, 0, 0, 0, 0, 0, 0, 0]

  /** An interface identifier (a GUID in its four-field layout). */
  datatype Iid = Iid(data1: bv32, data2: bv16, data3: bv16, data4: GuidTail)

  /** IID_IUnknown, 00000000-0000-0000-C000-000000000046. */
  const IidIUnknown: Iid := Iid(0, 0, 0, [0xC0, 0, 0, 0, 0, 0, 0, 0x46])

  /** BMDFrameFlags and its default value bmdFrameFlagDefault. */
  type FrameFlags = Uint32
  const FrameFlagDefault: FrameFlags := 0
}
