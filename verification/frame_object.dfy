/**
  ConvertedVideoFrame as an object with mutable state, each method specified
  by the corresponding step of the pure state machine in ConvertedFrame.

  The metadata fields are `const`: nothing can assign them after the
  constructor. `freed` is ghost bookkeeping for "the object has been deleted";
  every method requires it to be false.
 */
module FrameObject {
  import opened Com
  import CF = ConvertedFrame

  class ConvertedVideoFrame {
    const width: Long
    const height: Long
    const pixelFormat: PixelFormat
    const rowSize: Long
    var data: CF.Pointer
    var referenceCount: nat
    ghost var freed: bool
    ghost var frees: nat

    /** The object's state as a value of the pure model. */
    ghost function Model(): CF.Frame
      reads this
    {
      CF.Frame(width, height, pixelFormat, rowSize, data, referenceCount, freed, frees)
    }

    ghost predicate Valid()
      reads this
    {
      Model().Consistent()
    }

    constructor (width: Long, height: Long, pixelFormat: PixelFormat, rowSize: Long, mallocSucceeds: bool)
      ensures Valid() && !freed
      ensures Model() == CF.Construct(width, height, pixelFormat, rowSize, mallocSucceeds)
    {
      this.data := if mallocSucceeds then CF.Block(CF.AllocationSize(rowSize, height)) else CF.Null;
      this.width := width;
      this.height := height;
      this.pixelFormat := pixelFormat;
      this.rowSize := rowSize;
      this.referenceCount := 1;
      this.freed := false;
      this.frees := 0;
    }

    method GetWidth() returns (w: Long)
      requires Valid() && !freed
      ensures w == CF.GetWidth(Model())
    {
      return width;
    }

    method GetHeight() returns (h: Long)
      requires Valid() && !freed
      ensures h == CF.GetHeight(Model())
    {
      return height;
    }

    method GetPixelFormat() returns (p: PixelFormat)
      requires Valid() && !freed
      ensures p == CF.GetPixelFormat(Model())
    {
      return pixelFormat;
    }

    method GetRowBytes() returns (n: Long)
      requires Valid() && !freed
      ensures n == CF.GetRowBytes(Model())
    {
      return rowSize;
    }

    method GetBytes() returns (hr: HResult, bytes: CF.Pointer)
      requires Valid() && !freed
      ensures CF.BytesAnswer(hr, bytes) == CF.GetBytes(Model())
    {
      bytes := data;
      hr := SOk;
    }

    method AddRef() returns (count: Ulong)
      requires Valid() && !freed
      modifies this
      ensures Valid() && !freed
      ensures CF.CountAnswer(Model(), count) == CF.AddRef(old(Model()))
    {
      referenceCount := referenceCount + 1;
      count := ToUlong(referenceCount);
    }

    /** `delete this`: the destructor frees the buffer once and nulls the pointer. */
    method Delete()
      requires !freed
      modifies this
      ensures Model() == CF.Destroy(old(Model()))
    {
      if data.Block? {
        frees := frees + 1;
        data := CF.Null;
      }
      freed := true;
    }

    method Release() returns (count: Ulong)
      requires Valid() && !freed
      modifies this
      ensures Valid()
      ensures CF.CountAnswer(Model(), count) == CF.Release(old(Model()))
      ensures freed <==> ToUlong(old(referenceCount) - 1) == 0
    {
      referenceCount := referenceCount - 1;
      var ulRefCount := ToUlong(referenceCount);
      if ulRefCount == 0 {
        Delete();
      }
      count := ulRefCount;
    }

    method QueryInterface(iid: Iid, out: CF.OutParam) returns (hr: HResult, written: CF.Written)
      requires Valid() && !freed
      modifies this
      ensures Valid() && !freed
      ensures CF.QueryAnswer(Model(), hr, written) == CF.QueryInterface(old(Model()), iid, out)
    {
      if out.NullOut? {
        return EInvalidArg, CF.Untouched;
      }
      written := CF.WroteNull;
      if iid == IidIUnknown {
        written := CF.WroteSelf;
        var _ := AddRef();
        return SOk, written;
      }
      return ENoInterface, written;
    }
  }
}
