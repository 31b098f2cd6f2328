# macadam capture core: converted video frame and N-API helpers

This project models two parts of the macadam Node.js addon for Blackmagic
DeckLink capture devices.

The first is `ConvertedVideoFrame`, the reference-counted frame object the
capture path creates when it converts a captured frame to another pixel
format. The constructor mallocs a buffer of `rowSize * height` bytes and
fixes width, height, pixel format and row size. The reference count starts
at 1. `AddRef` and a successful `QueryInterface` (only `IID_IUnknown` is
granted) add a reference. `Release` drops one, keeps the new count in a
32-bit `ULONG`, and deletes the object when that `ULONG` is 0. Deletion
frees the buffer and nulls the pointer. While the count stays below 2^32,
deletion happens exactly when the count reaches 0.
`GetTimecode` and `GetAncillaryData` answer `S_FALSE`, and `GetFlags`
answers `bmdFrameFlagDefault`.

- `ConvertedFrame` (converted_frame.dfy) is the object as a pure state
  machine. Besides the C++ fields, its state counts how often the buffer has
  been freed and records whether the object has been deleted. `Run` replays
  any sequence of `AddRef`/`Release`/`QueryInterface` calls. The lemmas prove
  three things over every such sequence. The buffer is freed at most once,
  exactly on deletion, which is the 1→0 transition while the count stays
  below 2^32. The metadata never changes. Below that bound, a sequence
  reaches a deleted object exactly when some earlier prefix had already
  released every reference.
- `FrameObject` (frame_object.dfy) is the same object as a class. Its
  metadata fields are `const`, it has a ghost `freed` flag, and every method
  requires `!freed`. Each method's contract says its effect is the matching
  step of `ConvertedFrame`.

The second part is the decision logic of the N-API helpers in
`macadam_util.cc`, in module `MacadamUtil` (macadam_util.dfy, with the N-API
enumerations in napi.dfy):

- `getNapiTypeName`: value type to name.
- `checkStatus`: a failed status becomes a pending exception.
- `checkArgs`: argument count first, then each argument's type in order.
- `rejectStatus`: the success short-circuit, plus the shape of its other branch.
- `serializeDisplayMode`: the record built for one display mode. Its
  `videoModes` list comes from a sentinel-terminated scan of the known pixel
  formats table.

N-API and DeckLink calls are not executed in the model. Their answers are
inputs:

- a status;
- a `napi_typeof` answer;
- the `DoesSupportVideoMode` answer, as an uninterpreted function;
- whether each checked N-API call succeeded.

Integer widths: a C++ `long` is 64-bit (LP64). `ULONG` is 32-bit unsigned,
and the count returned by `AddRef`/`Release` is converted to it modulo 2^32.
The malloc size is the `long` product converted to `size_t`, modulo 2^64.

HRESULTs are an enumeration (`SOk` = S_OK = NOERROR, `SFalse`, `EInvalidArg`,
`ENoInterface`, `EFail`), because their numeric codes differ between the
Windows and the Linux/macOS COM headers.

Reference-count updates are meant to be atomic (InterlockedIncrement and
InterlockedDecrement). `AddRef`, however, re-reads the count without
synchronisation after incrementing it (src/converted_frame.cc:87-88). The
model follows the code and treats each call as one sequential step.

## Model

| member | source | states |
|---|---|---|
| ConvertedFrame.Construct | src/converted_frame.cc:5-11 | A new frame is live with reference count 1 and nothing freed yet. It stores width, height, pixel format and row size unchanged. Its buffer is exactly `rowSize * height` bytes when malloc succeeds and that product fits `size_t`; when malloc fails the pointer is null |
| ConvertedFrame.Destroy | src/converted_frame.cc:13-18 | The destructor marks the object deleted and leaves a null pointer. It frees the buffer once if the pointer was set and not at all if it was null. Metadata and count are untouched |
| ConvertedFrame.GetBytes | src/converted_frame.cc:36-39 | Returns S_OK and hands out the frame's own buffer pointer |
| ConvertedFrame.GetTimecode | src/converted_frame.cc:41-46 | For any requested timecode format, answers a success code other than S_OK (S_FALSE): no timecode is attached |
| ConvertedFrame.GetAncillaryData | src/converted_frame.cc:48-52 | Answers a success code other than S_OK (S_FALSE): no ancillary data |
| ConvertedFrame.GetFlags | src/converted_frame.cc:54-56 | Always bmdFrameFlagDefault |
| ConvertedFrame.AddRef | src/converted_frame.cc:86-89 | Count rises by exactly 1 and the object stays live. Buffer, metadata and free count are unchanged. The returned ULONG is the new count while it fits 32 bits |
| ConvertedFrame.Release | src/converted_frame.cc:78-84 | Count falls by exactly 1. The object is deleted iff the returned 32-bit count is 0, that is iff the new count is a multiple of 2^32. For counts up to 2^32 that means iff the old count was 1. On deletion the buffer is freed once (if it was set) and the pointer nulled; otherwise buffer and free count are unchanged. Returns the new count while it fits 32 bits |
| ConvertedFrame.QueryInterface | src/converted_frame.cc:58-76 | S_OK iff the out-parameter is non-null and the id is IID_IUnknown; only then is the object written out and the count raised by 1. A null out-parameter gives E_INVALIDARG and is not written. Any other id writes null and gives E_NOINTERFACE. Metadata and buffer never change |
| ConvertedFrame.AddRefThenRelease | src/converted_frame.cc:78-89 | AddRef followed by Release returns the original count modulo 2^32. It restores the frame exactly unless that count is a multiple of 2^32, in which case the Release deletes the object |
| ConvertedFrame.ReleaseDeletesOnTruncatedZero | src/converted_frame.cc:78-84 | A Release from count 2^32 + 1 deletes the object and returns 0, although 2^32 references remain |
| ConvertedFrame.QueryInterfaceThenRelease | src/converted_frame.cc:66-84 | When the count is not a multiple of 2^32, the reference a successful QueryInterface grants is undone by one Release. A failed QueryInterface leaves the frame unchanged |
| ConvertedFrame.RunAccounting | src/converted_frame.cc:78-89 | Over any completed sequence of calls: the count moves by exactly the references taken minus those released, and the metadata is unchanged. A deleted object's count is a multiple of 2^32. If the count stays below 2^32 throughout, the object is deleted iff the count is 0. The buffer is freed at most once, exactly on deletion |
| ConvertedFrame.RunDefinedExactly | src/converted_frame.cc:78-84 | If the count stays below 2^32 throughout, a sequence of calls never touches the deleted object iff no proper prefix has already brought the count to 0 |
| ConvertedFrame.FreedExactlyOnceOnLastRelease | src/converted_frame.h:10-14 | For a freshly constructed frame, with count starting at 1, and any completed sequence of calls: the buffer is freed at most once, exactly on deletion (never if malloc failed). Deletion needs 1 + net references ≡ 0 modulo 2^32. If the count stays below 2^32 throughout, the object is deleted iff releases exceed other references by one |
| ConvertedFrame.MetadataFixedForLife | src/converted_frame.h:5-31 | While a constructed frame lives, after any calls, the getters return the constructor's arguments. GetBytes returns the original buffer, and the timecode, ancillary and flags answers stay fixed |
| ConvertedFrame.EightBitYuvHdFrame | src/converted_frame.cc:5-11 | A 1920x1080 8-bit YUV frame with a 3840-byte row gets a buffer of exactly 3840 * 1080 bytes and reports the metadata it was built with |
| FrameObject.ConvertedVideoFrame.GetWidth | src/converted_frame.cc:20-22 | Returns the width the pure model holds for this object |
| FrameObject.ConvertedVideoFrame.GetHeight | src/converted_frame.cc:24-26 | Returns the height the pure model holds for this object |
| FrameObject.ConvertedVideoFrame.GetPixelFormat | src/converted_frame.cc:28-30 | Returns the pixel format the pure model holds for this object |
| FrameObject.ConvertedVideoFrame.GetRowBytes | src/converted_frame.cc:32-34 | Returns the row size the pure model holds for this object |
| FrameObject.ConvertedVideoFrame.GetBytes | src/converted_frame.cc:36-39 | Returns S_OK and the object's own data pointer, as the pure GetBytes does |
| FrameObject.ConvertedVideoFrame.AddRef | src/converted_frame.cc:86-89 | The object's new state and returned count are those of the pure AddRef, and it stays live |
| FrameObject.ConvertedVideoFrame.Release | src/converted_frame.cc:78-84 | The object's new state and returned count are those of the pure Release. It is deleted iff the decremented count, truncated to 32 bits, is 0 |
| FrameObject.ConvertedVideoFrame.Delete | src/converted_frame.cc:13-18 | `delete this`: the object's new state is the pure Destroy of its old one |
| FrameObject.ConvertedVideoFrame.QueryInterface | src/converted_frame.cc:58-76 | The object's new state, the HRESULT and what is written out are those of the pure QueryInterface |
| MacadamUtil.TypeName | src/macadam_util.cc:69-82 | The name is "unknown" exactly for values outside the nine listed types |
| MacadamUtil.TypeNameRoundTrip | src/macadam_util.cc:69-82 | Each listed type's name reads back to that type, and any name that reads back to a type is that type's name. "unknown" reads back to nothing |
| MacadamUtil.TypeNameInjective | src/macadam_util.cc:69-82 | Distinct listed types have distinct names |
| MacadamUtil.CheckStatus | src/macadam_util.cc:35-62 | Returns ok iff given ok. Every other status ends as a pending exception. An error is thrown, carrying the last error's code and message, iff the status is neither ok nor an already pending exception |
| MacadamUtil.CheckStatusIdempotent | src/macadam_util.cc:41-61 | Checking checkStatus's own result again returns it unchanged and throws nothing |
| MacadamUtil.CheckArgs | src/macadam_util.cc:84-115 | A failed napi_get_cb_info status is returned as is, and only then. A count mismatch is reported before any type is inspected, and only for a real mismatch. The result is ok iff every argument's type query succeeds with the expected type. With the right count and some argument wrong, the verdict is positional: the reported 1-based position is the first argument whose type query failed or whose type differs, and every earlier argument matched |
| MacadamUtil.RejectStatus | src/macadam_util.cc:132-161 | With the success status: no rejection, the carrier is not tidied, and the status is returned unchanged. Otherwise the promise is rejected and the carrier tidied. The message comes from the last N-API error iff the status is below the addon's error range |
| MacadamUtil.ListedCount | src/macadam_util.cc:268-269 | The scan length is the index of the first zero format or null name, or the table length if there is none |
| MacadamUtil.ScanVideoModes | src/macadam_util.cc:264-284 | The scan loop yields exactly the kept names before the first sentinel, in table order. With no device the list is empty |
| MacadamUtil.SupportedNamesAppend | src/macadam_util.cc:268-283 | Filtering a concatenation of table parts gives the concatenation of the filtered parts, so the list keeps table order |
| MacadamUtil.SupportedNamesMembership | src/macadam_util.cc:270-280 | A name is listed iff some scanned row carries it and the device answered S_OK with a support level other than bmdDisplayModeNotSupported |
| MacadamUtil.VideoModesIgnoreTail | src/macadam_util.cc:267-269 | Rows after the first sentinel never affect videoModes |
| MacadamUtil.SerializeDisplayMode | src/macadam_util.cc:172-295 | Success iff every checked N-API call succeeds, otherwise napi_generic_failure. On success the record holds the mode's name, width, height, id and flags, and a two-element frameRate array [duration, time scale]. Its videoModes list is the scan's, and fieldDominance holds the mode height, as written |
| MacadamUtil.SerializeDisplayModeCorrected | src/macadam_util.cc:240-244 | The same record, but fieldDominance holds the mode's field dominance |
| MacadamUtil.FieldDominanceReportsHeight | src/macadam_util.cc:240-244 | The as-written and corrected records succeed together and differ only in fieldDominance. The as-written value is wrong whenever the dominance code is not the height, for example a 1080-line mode with upper field first |

## Left out

- src/capture_promise.h: it only declares the capture carriers and callback structs. The frame bridge that uses them is not part of this model.
- The N-API calls themselves: object, string and array creation, napi_throw_error, deferred rejection, and reference and async-work deletion in tidyCarrier. Each becomes an abstract outcome.
- Number precision: napi_create_int64 yields a JavaScript number, a double, so the real record rounds magnitudes above 2^53. DisplayModeRecord holds the exact `long` values.
- Message text built with sprintf/printf, including the text of the errors checkArgs and checkStatus throw. Only their ingredients are kept: position, expected and actual type, error code and message.
- microTime: it reads a wall clock.
- The display-mode name's platform plumbing (BSTR, CFString, `const char*`). The name is an input string.
- DeckLink driver calls (GetWidth, GetHeight, GetFrameRate, GetFlags, GetFieldDominance, DoesSupportVideoMode). They are inputs; DoesSupportVideoMode is an uninterpreted function.
- macadam_util.h is not part of this model. The known pixel formats table and the MACADAM_SUCCESS / MACADAM_ERROR_START codes are parameters.
- MacadamUtil.SerializeDisplayMode: the displayMode and displayModeFlags values are created and stored without a status check, and the model assumes those calls succeed. The list of checked calls groups them by property.
- MacadamUtil.RejectStatus: the non-success branch reads the carrier's status after tidyCarrier has deleted it, so the returned value is modelled as undefined. Its malloc/delete[] mismatch is a heap-layout defect and is not modelled.
- MacadamUtil.ScanVideoModes: a table without a sentinel row stops at its end rather than reading past it.
- ConvertedFrame.AddRef: true atomicity of InterlockedIncrement/InterlockedDecrement, and the unsynchronised re-read of the count, are not modelled; each call is one sequential step.
- ConvertedFrame.Release: the 64-bit `long` count itself is unbounded in the model, so its overflow after 2^63 AddRefs is not modelled. The 32-bit `ULONG` truncation is modelled.
- ConvertedFrame.RunAccounting: "deleted iff the count is 0" is promised only while the count stays below 2^32 (WithinUlong). Above that, a Release reaching a multiple of 2^32 deletes a still-referenced object, as written.
- ConvertedFrame.RunDefinedExactly: proved only while the count stays below 2^32, for the same reason.
- ConvertedFrame.FreedExactlyOnceOnLastRelease: "deleted iff releases exceed other references by one" is proved only while the count stays below 2^32, for the same reason.
- Platform: LP64 (Linux, macOS) is the modelled platform. On Windows `long` is 32 bits, and that build is not modelled.
- Frame buffer contents: the pixel data is never read or written by this core, so the buffer is modelled by its length.

## Findings

| source | as written | input that shows it | evidently intended | confidence | as-written member | corrected member |
|---|---|---|---|---|---|---|
| src/macadam_util.cc:240-244 | The "fieldDominance" property is created from `modeHeight`; the value read from GetFieldDominance is never used | a 1080-line mode whose field dominance is upper field first ('uppr', 0x75707072): the record reports 1080 | the property holds the mode's field dominance | high; not executed | MacadamUtil.SerializeDisplayMode | MacadamUtil.SerializeDisplayModeCorrected |
