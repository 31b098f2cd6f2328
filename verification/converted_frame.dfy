/**
  ConvertedVideoFrame as a pure state machine.

  A frame owns one heap buffer sized `rowSize * height`, fixed metadata
  (width, height, pixel format, row size) and a reference count that starts
  at 1. AddRef and a successful QueryInterface raise the count; Release
  lowers it, stores the new count in a 32-bit ULONG, and runs the destructor
  when that ULONG is 0, which frees the buffer and nulls the pointer. Each Interlocked* call is one sequential step.

  The state carries two bookkeeping fields the C++ object does not have:
  `destroyed` (the object has been deleted) and `frees` (how many times the
  buffer has been passed to free), so that "freed exactly once" can be stated.
 */
module ConvertedFrame {
  import opened Wrappers
  import opened Com

  /** The frame's data pointer: null, or a malloc'd block of `length` bytes. */
  datatype Pointer = Null | Block(length: nat)

  /** Whether the caller of QueryInterface passed a usable out-parameter. */
  datatype OutParam = NullOut | OutSlot

  /** What QueryInterface left in the caller's out-parameter. */
  datatype Written = Untouched | WroteNull | WroteSelf

  datatype Frame = Frame(
    width: Long,
    height: Long,
    pixelFormat: PixelFormat,
    rowSize: Long,
    data: Pointer,
    referenceCount: nat,
    destroyed: bool,
    frees: nat)
  {
    /** The object has not been deleted, so its methods may be called. */
    predicate Alive() {
      !destroyed && referenceCount >= 1
    }

    /** Every reachable state: a count of 0 means deletion, and deletion leaves a null pointer. */
    predicate Consistent() {
      && (referenceCount == 0 ==> destroyed)
      && (destroyed ==> data == Null)
    }

    /** The four constructor arguments, which no method changes. */
    predicate SameMetadata(other: Frame) {
      && width == other.width
      && height == other.height
      && pixelFormat == other.pixelFormat
      && rowSize == other.rowSize
    }
  }

  /** The byte count passed to malloc: the `long` product converted to `size_t`. */
  function AllocationSize(rowSize: Long, height: Long): nat {
    ToSizeT(rowSize * height)
  }

  /**
    The constructor: malloc(rowSize * height), then store the four arguments.
    Whether malloc returns a block or null is the allocator's choice, given here
    as `mallocSucceeds`.
   */
  function Construct(width: Long, height: Long, pixelFormat: PixelFormat, rowSize: Long, mallocSucceeds: bool): (f: Frame)
    ensures f.Alive() && f.Consistent()
    ensures f.referenceCount == 1 && f.frees == 0
    ensures f.width == width && f.height == height
    ensures f.pixelFormat == pixelFormat && f.rowSize == rowSize
    ensures mallocSucceeds && 0 <= rowSize * height < 0x1_0000_0000_0000_0000
            ==> f.data == Block(rowSize * height)
    ensures !mallocSucceeds ==> f.data == Null
  {
    Frame(width, height, pixelFormat, rowSize,
          if mallocSucceeds then Block(AllocationSize(rowSize, height)) else Null,
          1, false, 0)
  }

  /** The destructor: free the buffer if the pointer is set, then null it. */
  function Destroy(f: Frame): (g: Frame)
    requires !f.destroyed
    ensures g.destroyed && g.data == Null && g.SameMetadata(f)
    ensures g.referenceCount == f.referenceCount
    ensures g.frees == f.frees + (if f.data.Block? then 1 else 0)
  {
    f.(data := Null, destroyed := true,
       frees := if f.data.Block? then f.frees + 1 else f.frees)
  }

  function GetWidth(f: Frame): Long requires f.Alive() { f.width }
  function GetHeight(f: Frame): Long requires f.Alive() { f.height }
  function GetPixelFormat(f: Frame): PixelFormat requires f.Alive() { f.pixelFormat }
  function GetRowBytes(f: Frame): Long requires f.Alive() { f.rowSize }

  /** GetBytes writes the frame's own data pointer to the out-parameter and returns S_OK. */
  datatype BytesAnswer = BytesAnswer(hr: HResult, bytes: Pointer)

  function GetBytes(f: Frame): (r: BytesAnswer)
    requires f.Alive()
    ensures r.hr == SOk && r.bytes == f.data
  {
    BytesAnswer(SOk, f.data)
  }

  /**
    No timecode is attached, whatever format is asked for: a success code that
    carries nothing, and the out-parameter is not written.
   */
  function GetTimecode(f: Frame, format: Uint32): (hr: HResult)
    requires f.Alive()
    ensures Succeeded(hr) && hr != SOk
  {
    SFalse
  }

  /** No ancillary data is attached, answered like GetTimecode. */
  function GetAncillaryData(f: Frame): (hr: HResult)
    requires f.Alive()
    ensures Succeeded(hr) && hr != SOk
  {
    SFalse
  }

  function GetFlags(f: Frame): (flags: FrameFlags)
    requires f.Alive()
    ensures flags == FrameFlagDefault
  {
    FrameFlagDefault
  }

  /** The state after a reference-count call and the ULONG it returns. */
  datatype CountAnswer = CountAnswer(frame: Frame, returned: Ulong)

  /** InterlockedIncrement, then the count is read back and returned. */
  function AddRef(f: Frame): (r: CountAnswer)
    requires f.Alive()
    ensures r.frame.Alive() && r.frame.SameMetadata(f)
    ensures r.frame.referenceCount == f.referenceCount + 1
    ensures r.frame.data == f.data && r.frame.frees == f.frees
    ensures f.referenceCount + 1 < 0x1_0000_0000 ==> r.returned == r.frame.referenceCount
  {
    var g := f.(referenceCount := f.referenceCount + 1);
    CountAnswer(g, ToUlong(g.referenceCount))
  }

  /**
    InterlockedDecrement, whose result is kept in the 32-bit ULONG
    `ulRefCount`; the object deletes itself when that ULONG is 0. While the
    count stays within 2^32 that is exactly the 1 -> 0 transition; a release
    that leaves a multiple of 2^32 references also deletes.
   */
  function Release(f: Frame): (r: CountAnswer)
    requires f.Alive() && f.Consistent()
    ensures r.frame.Consistent() && r.frame.SameMetadata(f)
    ensures r.frame.referenceCount == f.referenceCount - 1
    ensures r.frame.destroyed <==> r.returned == 0
    ensures r.frame.destroyed <==> r.frame.referenceCount % 0x1_0000_0000 == 0
    ensures f.referenceCount <= 0x1_0000_0000 ==> (r.frame.destroyed <==> f.referenceCount == 1)
    ensures !r.frame.destroyed ==> r.frame.data == f.data && r.frame.frees == f.frees
    ensures r.frame.destroyed ==> r.frame.frees == f.frees + (if f.data.Block? then 1 else 0)
    ensures f.referenceCount - 1 < 0x1_0000_0000 ==> r.returned == r.frame.referenceCount
  {
    var count := f.referenceCount - 1;
    var g := f.(referenceCount := count);
    var ulRefCount := ToUlong(count);
    CountAnswer(if ulRefCount == 0 then Destroy(g) else g, ulRefCount)
  }

  /** The state after QueryInterface, its HRESULT, and what it wrote for the caller. */
  datatype QueryAnswer = QueryAnswer(frame: Frame, hr: HResult, written: Written)

  /**
    QueryInterface grants only IID_IUnknown, taking a reference for the caller.
    A null out-parameter is rejected before anything is written.
   */
  function QueryInterface(f: Frame, iid: Iid, out: OutParam): (r: QueryAnswer)
    requires f.Alive()
    ensures r.frame.Alive() && r.frame.SameMetadata(f)
    ensures r.frame.data == f.data && r.frame.frees == f.frees
    ensures r.hr == SOk <==> out.OutSlot? && iid == IidIUnknown
    ensures r.written == WroteSelf <==> r.hr == SOk
    ensures r.frame.referenceCount == f.referenceCount + (if r.hr == SOk then 1 else 0)
    ensures out.NullOut? ==> r.hr == EInvalidArg && r.written == Untouched
    ensures out.OutSlot? && iid != IidIUnknown ==> r.hr == ENoInterface && r.written == WroteNull
  {
    if out.NullOut? then QueryAnswer(f, EInvalidArg, Untouched)
    else if iid == IidIUnknown then QueryAnswer(AddRef(f).frame, SOk, WroteSelf)  // NOERROR
    else QueryAnswer(f, ENoInterface, WroteNull)
  }

  /**
    Taking a reference and giving it back restores the frame exactly, unless
    the count was a multiple of 2^32, when the release deletes the object.
   */
  lemma AddRefThenRelease(f: Frame)
    requires f.Alive() && f.Consistent()
    ensures ToUlong(f.referenceCount) != 0 ==> Release(AddRef(f).frame).frame == f
    ensures ToUlong(f.referenceCount) == 0 ==> Release(AddRef(f).frame).frame.destroyed
    ensures Release(AddRef(f).frame).returned == ToUlong(f.referenceCount)
  {
  }

  /**
    The deletion test reads the 32-bit ULONG rather than the `long` count: a
    release that leaves 2^32 references outstanding deletes the object and
    frees its buffer.
   */
  lemma ReleaseDeletesOnTruncatedZero(f: Frame)
    requires f.Alive() && f.Consistent() && f.referenceCount == 0x1_0000_0001
    ensures Release(f).frame.destroyed && Release(f).returned == 0
    ensures Release(f).frame.referenceCount == 0x1_0000_0000
  {
  }

  /** The reference granted by a successful QueryInterface is undone by one Release. */
  lemma QueryInterfaceThenRelease(f: Frame, iid: Iid, out: OutParam)
    requires f.Alive() && f.Consistent()
    ensures var q := QueryInterface(f, iid, out);
            q.hr == SOk && ToUlong(f.referenceCount) != 0 ==> Release(q.frame).frame == f
    ensures var q := QueryInterface(f, iid, out);
            q.hr != SOk ==> q.frame == f
  {
  }

  // ---------------------------------------------------------------------------
  // Sequences of calls

  /** One call on the object that can change its state. */
  datatype Call = AddRefCall | ReleaseCall | QueryInterfaceCall(iid: Iid, out: OutParam)

  function Step(f: Frame, c: Call): Frame
    requires f.Alive() && f.Consistent()
  {
    match c
    case AddRefCall => AddRef(f).frame
    case ReleaseCall => Release(f).frame
    case QueryInterfaceCall(iid, out) => QueryInterface(f, iid, out).frame
  }

  /** How much a call changes the reference count. */
  function Delta(c: Call): int {
    match c
    case AddRefCall => 1
    case ReleaseCall => -1
    case QueryInterfaceCall(iid, out) => if out.OutSlot? && iid == IidIUnknown then 1 else 0
  }

  /** References taken minus references released over a sequence of calls. */
  function Net(calls: seq<Call>): int {
    if |calls| == 0 then 0 else Delta(calls[0]) + Net(calls[1..])
  }

  /** Every count the object passes through stays below 2^32, so ULONG truncation never bites. */
  predicate WithinUlong(count: int, calls: seq<Call>) {
    forall k :: 0 <= k <= |calls| ==> count + Net(calls[..k]) < 0x1_0000_0000
  }

  /**
    Runs the calls in order. None means some call reached an object that had
    already been deleted (a use after free); otherwise the final state.
   */
  function Run(f: Frame, calls: seq<Call>): Option<Frame>
    requires f.Consistent()
    decreases |calls|
  {
    if |calls| == 0 then Some(f)
    else if !f.Alive() then None
    else Run(Step(f, calls[0]), calls[1..])
  }

  lemma StepAccounting(f: Frame, c: Call)
    requires f.Alive() && f.Consistent()
    ensures Step(f, c).Consistent() && Step(f, c).SameMetadata(f)
    ensures Step(f, c).referenceCount == f.referenceCount + Delta(c)
    ensures !Step(f, c).destroyed ==> Step(f, c).data == f.data && Step(f, c).frees == f.frees
    ensures Step(f, c).destroyed ==> Step(f, c).frees == f.frees + (if f.data.Block? then 1 else 0)
    ensures Step(f, c).destroyed ==> Step(f, c).referenceCount % 0x1_0000_0000 == 0
  {
  }

  /**
    Over any sequence of calls on a live object that never touches it after
    deletion: the count moves by exactly Net, the metadata never changes, the
    object is deleted only with a count that is a multiple of 2^32 (exactly
    when the count has reached 0, if it stayed below 2^32 throughout), and
    the buffer is freed at most once, exactly on that deletion.
   */
  lemma {:induction false} RunAccounting(f: Frame, calls: seq<Call>)
    requires f.Alive() && f.Consistent()
    ensures Run(f, calls).Some? ==>
      var g := Run(f, calls).value;
      && g.Consistent()
      && g.SameMetadata(f)
      && g.referenceCount == f.referenceCount + Net(calls)
      && (g.destroyed ==> g.referenceCount % 0x1_0000_0000 == 0)
      && g.data == (if g.destroyed then Null else f.data)
      && g.frees == f.frees + (if g.destroyed && f.data.Block? then 1 else 0)
    ensures Run(f, calls).Some? && WithinUlong(f.referenceCount, calls) ==>
      (Run(f, calls).value.destroyed <==> Run(f, calls).value.referenceCount == 0)
    decreases |calls|
  {
    assert calls[..|calls|] == calls;
    if |calls| > 0 {
      var g := Step(f, calls[0]);
      StepAccounting(f, calls[0]);
      if |calls| == 1 {
        assert calls[1..] == [];
      } else if g.Alive() {
        RunAccounting(g, calls[1..]);
      }
    }
  }

  /**
    While the count stays below 2^32, a sequence of calls stays clear of the
    deleted object exactly when no proper prefix has already released every
    reference.
   */
  lemma {:induction false} RunDefinedExactly(f: Frame, calls: seq<Call>)
    requires f.Alive() && f.Consistent()
    ensures WithinUlong(f.referenceCount, calls) ==>
      (Run(f, calls).Some? <==>
       forall k :: 0 <= k < |calls| ==> f.referenceCount + Net(calls[..k]) >= 1)
    decreases |calls|
  {
    if |calls| > 0 && WithinUlong(f.referenceCount, calls) {
      var g := Step(f, calls[0]);
      StepAccounting(f, calls[0]);
      var rest := calls[1..];
      forall j | 0 <= j <= |rest|
        ensures Net(calls[..j + 1]) == Delta(calls[0]) + Net(rest[..j])
      {
        assert calls[..j + 1][1..] == rest[..j];
      }
      assert Net(calls[..0]) == 0;
      assert f.referenceCount + Net(calls[..1]) < 0x1_0000_0000;
      assert WithinUlong(g.referenceCount, rest) by {
        forall j | 0 <= j <= |rest|
          ensures g.referenceCount + Net(rest[..j]) < 0x1_0000_0000
        {
          assert f.referenceCount + Net(calls[..j + 1]) < 0x1_0000_0000;
        }
      }
      if g.Alive() {
        RunDefinedExactly(g, rest);
        if Run(f, calls).Some? {
          forall k | 0 <= k < |calls|
            ensures f.referenceCount + Net(calls[..k]) >= 1
          {
            if k > 0 {
              assert Net(calls[..k]) == Delta(calls[0]) + Net(rest[..k - 1]);
            }
          }
        } else {
          var j :| 0 <= j < |rest| && g.referenceCount + Net(rest[..j]) < 1;
          assert f.referenceCount + Net(calls[..j + 1]) < 1;
        }
      } else if |rest| > 0 {
        assert f.referenceCount + Net(calls[..1]) < 1;
      } else {
        forall k | 0 <= k < |calls|
          ensures f.referenceCount + Net(calls[..k]) >= 1
        {
          assert k == 0;
        }
      }
    }
  }

  /**
    For a freshly constructed frame and any completed sequence of calls: the
    buffer is freed at most once, exactly when the object is deleted (never,
    if malloc had returned null). While the count stays below 2^32 the object
    is deleted exactly when releases outnumber the other references by one
    (the creator's).
   */
  lemma FreedExactlyOnceOnLastRelease(
    width: Long, height: Long, pixelFormat: PixelFormat, rowSize: Long,
    mallocSucceeds: bool, calls: seq<Call>)
    ensures var g := Run(Construct(width, height, pixelFormat, rowSize, mallocSucceeds), calls);
      g.Some? ==>
        && g.value.frees == (if g.value.destroyed && mallocSucceeds then 1 else 0)
        && g.value.frees <= 1
        && (g.value.destroyed ==> (1 + Net(calls)) % 0x1_0000_0000 == 0)
    ensures var g := Run(Construct(width, height, pixelFormat, rowSize, mallocSucceeds), calls);
      g.Some? && WithinUlong(1, calls) ==> (g.value.destroyed <==> Net(calls) == -1)
  {
    RunAccounting(Construct(width, height, pixelFormat, rowSize, mallocSucceeds), calls);
  }

  /**
    While the frame lives, every accessor answers as it did at construction:
    the metadata getters return the constructor's arguments, GetBytes the
    original buffer, and the fixed answers stay fixed.
   */
  lemma MetadataFixedForLife(
    width: Long, height: Long, pixelFormat: PixelFormat, rowSize: Long,
    mallocSucceeds: bool, calls: seq<Call>)
    ensures var f := Construct(width, height, pixelFormat, rowSize, mallocSucceeds);
      var g := Run(f, calls);
      g.Some? && g.value.Alive() ==>
        && GetWidth(g.value) == width
        && GetHeight(g.value) == height
        && GetPixelFormat(g.value) == pixelFormat
        && GetRowBytes(g.value) == rowSize
        && GetBytes(g.value) == GetBytes(f)
        && (forall format: Uint32 :: GetTimecode(g.value, format) == GetTimecode(f, format) == SFalse)
        && GetAncillaryData(g.value) == GetAncillaryData(f) == SFalse
        && GetFlags(g.value) == FrameFlagDefault
  {
    RunAccounting(Construct(width, height, pixelFormat, rowSize, mallocSucceeds), calls);
  }

  /**
    A 1920x1080 frame in 8-bit YUV ('2vuy', two bytes per pixel, so 3840 bytes
    per row) gets a buffer of exactly 3840 * 1080 bytes and reports its
    constructor's metadata.
   */
  lemma EightBitYuvHdFrame()
    ensures var f := Construct(1920, 1080, 0x32767579, 1920 * 2, true);
      && GetBytes(f) == BytesAnswer(SOk, Block(3840 * 1080))
      && GetWidth(f) == 1920 && GetHeight(f) == 1080 && GetRowBytes(f) == 3840
      && GetPixelFormat(f) == 0x32767579
  {
  }
}
