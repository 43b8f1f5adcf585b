# OpenScreen: a verified model of the MJPEG wire path and the window-side logic

OpenScreen streams the screen, or one application window, to HTTP clients as Motion JPEG.
Each connection gets one `HTTP/1.1 200 OK` preamble declaring
`multipart/x-mixed-replace; boundary=--boundary`. Then, for each captured frame, the client gets:

- a part header `\n--boundary\nContent-Type: image/jpeg\nContent-Length: <n>\n\n`;
- the `n` JPEG bytes;
- one LF.

This project models that byte stream exactly as the code emits it:

- lines end in a bare LF, not CRLF;
- the delimiter line written is `--boundary`, while the declared boundary parameter is `--boundary`. The delimiter that section 5.1.1 of RFC 2046 derives from that parameter is `----boundary`.

It proves that a reader which cuts each part at its `Content-Length` gets the frames back unchanged.

It also models:

- the frame-rate and resolution enums;
- the combobox lookups, the command-line scan and the application-list refresh of the main window;
- the window filter that builds the list of streamable applications.

Modules, one per source unit:

- `TextEncoding`: `Encoding.ASCII.GetBytes` and `long.ToString()`. It also has a decimal parser, which the reader uses.
- `ListOps`: the `List.Remove` and `Contains` behaviour the list code relies on. `Remove` deletes the first occurrence only.
- `MjpegConstants`: the preamble and the part header.
- `Streams`: the client's output stream and the `MemoryStream` image buffer, as classes. The output stream holds the bytes sent, a flush count and a disposed flag; the buffer holds its bytes and a disposed flag.
- `MjpegWriter`: the writer class, and the byte functions `Preamble`, `ImagePart` and `Parts` that specify what it sends.
- `MjpegReader`: an independent reader of the multipart stream. It is the partner of the round-trip lemmas.
- `MjpegStream`: `GetMjpegStream` as an enumerator class, `MjpegFrames`. Its `MoveNext` empties the one shared buffer and encodes the next image into it, only when asked.
- `StreamingSession`: the call order of the client thread (headers once, then one `WriteImage` per frame, then dispose), proved end to end.
- `Resolution`, `FrameRate`: the enum tables.
- `MainWindow`: `GetFpsFromComboBox`, `GetResolutionFromComboBox`, `CmdArgs_Validation` and `CbAppWindow_OnDropDownOpened`.
- `RunningApplications`: `IsHasCaption`, the `FilterCallback` step and the fold over all windows.

Behaviour kept as coded:

- The 720p entry of the size table is 1080x720, while its label reads `"1280x720 (720p)"`. `Resolution.SizesAsWritten` and `MainWindow.SevenHundredAndTwentyPLabelDisagrees` state this.
- The command-line scan matches flags as substrings. It also scans a flag's value as an argument. A value flag in the last position makes `args[i + 1]` throw, so the scan stops.
- A minimised or cloaked window removes the first list entry with its title, even when that entry came from another window.

## Model

| member | source | states |
|---|---|---|
| TextEncoding.AsciiBytes | OpenScreen.Core/Mjpeg/MjpegWriter.cs:28 | `Encoding.ASCII.GetBytes` yields one byte per character |
| TextEncoding.AsciiBytesConcat | OpenScreen.Core/Mjpeg/MjpegWriter.cs:28 | encoding a concatenation is concatenating the encodings |
| TextEncoding.Decimal | OpenScreen.Core/Mjpeg/MjpegConstants.cs:19 | the rendering of a non-negative number is a nonempty run of digits with no leading zero |
| TextEncoding.LongToString | OpenScreen.Core/Mjpeg/MjpegConstants.cs:19 | `{contentLength}` renders as ASCII, as the decimal digits when non-negative, and starts with '-' exactly when negative |
| TextEncoding.LeadingDigitsSpec | OpenScreen.Core/Mjpeg/MjpegConstants.cs:19 | the reader's digit count covers exactly the run of digits at the front |
| TextEncoding.ParseDecimalOfDecimal | OpenScreen.Core/Mjpeg/MjpegConstants.cs:19 | round trip: the ASCII digits of n parse back to n |
| TextEncoding.LeadingDigitsOfDecimal | OpenScreen.Core/Mjpeg/MjpegConstants.cs:19 | the digits of n followed by a non-digit form a run of exactly `|Decimal(n)|` digits |
| TextEncoding.DecimalInjective | OpenScreen.Core/Mjpeg/MjpegConstants.cs:19 | distinct numbers have distinct renderings |
| TextEncoding.LongToStringInjective | OpenScreen.Core/Mjpeg/MjpegConstants.cs:19 | distinct `long` values, negative ones included, have distinct renderings |
| MjpegConstants.GetImageInfoHeaders | OpenScreen.Core/Mjpeg/MjpegConstants.cs:17-20 | every part header starts with `\n--boundary\n`, ends with `\n\n` and has the rendered length at offset 53; its length is 53 + digits + 2 |
| MjpegConstants.ResponseHeadersAscii | OpenScreen.Core/Mjpeg/MjpegConstants.cs:8-9 | the preamble is pure ASCII and 77 characters long, so it encodes to 77 bytes |
| MjpegConstants.NewLineBytes | OpenScreen.Core/Mjpeg/MjpegConstants.cs:10 | the part terminator encodes to the single byte LF |
| MjpegConstants.ImageInfoHeadersAscii | OpenScreen.Core/Mjpeg/MjpegConstants.cs:17-20 | every part header is pure ASCII, whatever length it announces |
| MjpegConstants.ImageInfoHeadersOfLength | OpenScreen.Core/Mjpeg/MjpegConstants.cs:19 | for n >= 0 the header is the fixed 53-character prefix, the decimal digits of n and two LFs |
| MjpegConstants.ImageInfoHeadersInjective | OpenScreen.Core/Mjpeg/MjpegConstants.cs:19 | distinct lengths give distinct headers |
| MjpegWriter.Preamble | OpenScreen.Core/Mjpeg/MjpegWriter.cs:28 | the bytes of the response headers number 77 |
| MjpegWriter.ImagePartLayout | OpenScreen.Core/Mjpeg/MjpegWriter.cs:42-53 | a part is the ASCII header for the payload's length, then the payload unchanged, then LF |
| MjpegWriter.ImagePartLength | OpenScreen.Core/Mjpeg/MjpegWriter.cs:42-53 | one image grows the output by 53 + digits + 2 + payload + 1 bytes |
| MjpegWriter.PartsSnoc | OpenScreen.Core/Mjpeg/MjpegWriter.cs:40-55 | sending one more image appends exactly its part to what was sent |
| MjpegWriter.MjpegWriter.constructor | OpenScreen.Core/Mjpeg/MjpegWriter.cs:18-21 | the writer wraps the given stream |
| MjpegWriter.MjpegWriter.WriteHeaders | OpenScreen.Core/Mjpeg/MjpegWriter.cs:26-34 | appends the preamble bytes and flushes once; on a null or disposed stream it fails and the stream is unchanged |
| MjpegWriter.MjpegWriter.WriteImage | OpenScreen.Core/Mjpeg/MjpegWriter.cs:40-55 | appends header(L), the whole buffer and LF, with L the buffer's length, and flushes once; a disposed buffer, null stream or disposed stream fails first and changes nothing; the buffer is untouched |
| MjpegWriter.MjpegWriter.Dispose | OpenScreen.Core/Mjpeg/MjpegWriter.cs:60-70 | disposes the stream if there is one and nulls the field, so a second call does nothing |
| Streams.OutputStream.Write | OpenScreen.Core/Mjpeg/MjpegWriter.cs:31 | writing only appends: the bytes already sent are a prefix of the new contents; a disposed stream throws |
| Streams.OutputStream.Flush | OpenScreen.Core/Mjpeg/MjpegWriter.cs:33 | a flush is counted and sends nothing; a disposed stream throws |
| Streams.OutputStream.Dispose | OpenScreen.Core/Mjpeg/MjpegWriter.cs:64 | disposing keeps what was sent, and may be repeated |
| Streams.MemoryStream.Truncate | OpenScreen.Core/Mjpeg/MjpegStream.cs:23 | `SetLength(0)` empties the buffer |
| Streams.MemoryStream.Write | OpenScreen.Core/Mjpeg/MjpegStream.cs:24 | encoding appends to the buffer, or fails beyond `int.MaxValue` bytes |
| MjpegStream.MjpegFrames.constructor | OpenScreen.Core/Mjpeg/MjpegStream.cs:17-19 | one fresh, empty, open buffer for the whole enumeration |
| MjpegStream.MjpegFrames.MoveNext | OpenScreen.Core/Mjpeg/MjpegStream.cs:17-28 | the i-th step encodes image i alone (no leftovers) into the same buffer; after the last image it disposes the buffer and reports the end; an empty sequence yields nothing |
| MjpegReader.ReadPart | OpenScreen.Core/Mjpeg/MjpegConstants.cs:19 | cutting a part off consumes at least one byte |
| MjpegReader.HeaderBytes | OpenScreen.Core/Mjpeg/MjpegConstants.cs:19 | the header bytes are the fixed lead, the digits and two LFs |
| MjpegReader.ContentLengthRoundTrip | OpenScreen.Core/Mjpeg/MjpegConstants.cs:19 | for n >= 0 the bytes between `Content-Length: ` and the final two LFs are exactly the digit run there, and they parse back to n |
| MjpegReader.ReadImagePart | OpenScreen.Core/Mjpeg/MjpegWriter.cs:42-53 | the announced `Content-Length` equals the payload written after it: reading a part gives back its payload and leaves what follows |
| MjpegReader.ReadPartsOfParts | OpenScreen.Core/Mjpeg/MjpegWriter.cs:40-55 | round trip: the parts for p1..pk read back as p1..pk, in order |
| MjpegReader.ReadStreamOfResponse | OpenScreen.Core/Mjpeg/MjpegWriter.cs:26-55 | round trip: the preamble followed by k parts reads back as the k payloads |
| StreamingSession.SendFrames | OpenScreen.Core/Server/StreamingServer.cs:135-140 | the loop sends one part per image, in order, with one flush each |
| StreamingSession.ServeClient | OpenScreen.Core/Server/StreamingServer.cs:128-141 | a client receives the preamble and then one part per image, which read back as the encoded images; the stream is flushed 1 + k times and closed at the end |
| Resolution.Ordinal | OpenScreen.Core/Screenshot/Resolution.cs:33-40 | members have underlying values 0 to 4 |
| Resolution.FromOrdinal | OpenScreen.Core/Screenshot/Resolution.cs:33-40 | a value names a member exactly when it is in 0..4, and that member has this value |
| Resolution.SizeOf | OpenScreen.Core/Screenshot/Resolution.cs:13-26 | every size is positive and at least as wide as it is high |
| Resolution.GetResolutionSize | OpenScreen.Core/Screenshot/Resolution.cs:47-59 | succeeds exactly for the five members; any other value throws `ArgumentOutOfRangeException` carrying that value |
| Resolution.GetResolutionSizeOfMember | OpenScreen.Core/Screenshot/Resolution.cs:49-56 | each member's value looks up that member's size |
| Resolution.SizesAsWritten | OpenScreen.Core/Screenshot/Resolution.cs:13-26 | the five sizes: 1920x1080, 1080x720, 854x480, 480x360, 352x240 |
| Resolution.SizesDecrease | OpenScreen.Core/Screenshot/Resolution.cs:13-40 | widths and heights both strictly decrease in declaration order |
| Resolution.GetResolutionSizeInjective | OpenScreen.Core/Screenshot/Resolution.cs:49-56 | distinct valid values have distinct sizes |
| FrameRate.Delay | OpenScreen.Core/Screenshot/Fps.cs:6-12 | every delay is positive |
| FrameRate.AllFpsComplete | OpenScreen.Core/Screenshot/Fps.cs:6-12 | the four members are all there are, and their values are exactly 8, 16, 33 and 66 |
| FrameRate.DelayIsPeriod | OpenScreen.Core/Screenshot/Fps.cs:8-11 | each value is 1000 divided by the rate in the member's name, rounded down |
| FrameRate.DelayOrder | OpenScreen.Core/Screenshot/Fps.cs:8-11 | a higher rate means a shorter delay and conversely; distinct members have distinct delays |
| MainWindow.GetFpsFromComboBox | OpenScreen/OpenScreen.xaml.cs:253-268 | each FPS label selects its member; any other text selects 30 FPS |
| MainWindow.GetResolutionFromComboBox | OpenScreen/OpenScreen.xaml.cs:275-292 | each resolution label selects its member; any other text selects 720p |
| MainWindow.SevenHundredAndTwentyPLabelDisagrees | OpenScreen/UiConstants.cs:45 | the 720p label says 1280 wide, while the size it selects is 1080 wide |
| MainWindow.ContainsAt | OpenScreen/OpenScreen.xaml.cs:50 | `string.Contains` holds exactly when the flag occurs at some position |
| MainWindow.ValueAfterLastMatch | OpenScreen/OpenScreen.xaml.cs:48-58 | the text field ends up holding the argument after the last matching argument |
| MainWindow.ValueAfterNoMatch | OpenScreen/OpenScreen.xaml.cs:48-58 | with no matching argument the field keeps the value loaded from the settings |
| MainWindow.CmdArgsValidation | OpenScreen/OpenScreen.xaml.cs:43-82 | fails exactly when the last argument contains `--ip` or `--port`; the IP and port texts follow the last match; start is performed iff some argument contains `--start`, hiding iff some argument contains `--hide`, start first; a failure performs neither |
| MainWindow.LongerArgumentMatchesFlag | OpenScreen/OpenScreen.xaml.cs:50-52 | `--ipv6` sets the IP field as `--ip` does |
| MainWindow.FlagValueIsScannedToo | OpenScreen/OpenScreen.xaml.cs:48-69 | the value after `--ip` is scanned as well: `--ip --hide` sets the IP text to `--hide` and also hides the window |
| MainWindow.Appended | OpenScreen/OpenScreen.xaml.cs:128-132 | everything the adding loop appends is a running app not already among the kept items |
| MainWindow.AppendedCovers | OpenScreen/OpenScreen.xaml.cs:128-132 | every running app ends up either kept or appended |
| MainWindow.AppendedNoDuplicates | OpenScreen/OpenScreen.xaml.cs:128-132 | `Contains` is checked again after each `Add`, so no app is appended twice |
| MainWindow.AppendedInOrder | OpenScreen/OpenScreen.xaml.cs:128-132 | new apps are appended in running-app order |
| MainWindow.ReconciledMembers | OpenScreen/OpenScreen.xaml.cs:112-133 | after the refresh every item is a running app and every running app is an item |
| MainWindow.ReconciledLayout | OpenScreen/OpenScreen.xaml.cs:120-132 | the surviving items come first in their previous relative order, followed by new apps with no repeats, in running-app order |
| MainWindow.RemoveStep | OpenScreen/OpenScreen.xaml.cs:120-126 | removing an item that is not running drops it from the snapshot's kept prefix and leaves the rest |
| MainWindow.AddStep | OpenScreen/OpenScreen.xaml.cs:128-132 | one pass of the adding loop appends the app exactly when the items do not hold it |
| MainWindow.AppWindowComboBox.OnDropDownOpened | OpenScreen/OpenScreen.xaml.cs:112-133 | the items become the survivors of the old items followed by the missing running apps |
| ListOps.FirstIndex | OpenScreen.Core/Screenshot/WinFeatures/RunningApplications.cs:155 | the position found holds x and no earlier position does |
| ListOps.RemoveFirst | OpenScreen.Core/Screenshot/WinFeatures/RunningApplications.cs:155 | `Remove` leaves a list without x unchanged and otherwise shortens it by one |
| ListOps.RemoveFirstMultiset | OpenScreen.Core/Screenshot/WinFeatures/RunningApplications.cs:155 | `Remove` takes away exactly one copy of x |
| ListOps.RemoveAfterPrefix | OpenScreen.Core/Screenshot/WinFeatures/RunningApplications.cs:155 | it is the first occurrence that goes; what is before and after it stays in order |
| ListOps.RemoveFirstSubsequence | OpenScreen.Core/Screenshot/WinFeatures/RunningApplications.cs:155 | `Remove` keeps the rest of the list in order |
| ListOps.KeepIn | OpenScreen/OpenScreen.xaml.cs:120-126 | the kept items are exactly the snapshot's items that are running |
| ListOps.KeepInMultiset | OpenScreen/OpenScreen.xaml.cs:120-126 | every copy of a running item survives, so an item listed twice stays twice, and no copy of anything else survives |
| ListOps.KeepInSubsequence | OpenScreen/OpenScreen.xaml.cs:120-126 | the kept items keep their relative order |
| RunningApplications.IsHasCaption | OpenScreen.Core/Screenshot/WinFeatures/RunningApplications.cs:126-129 | holds iff both bits of `WS_CAPTION` (0xC00000, declared at line 14) are set |
| RunningApplications.CaptionIgnoresOtherBits | OpenScreen.Core/Screenshot/WinFeatures/RunningApplications.cs:126-129 | style bits outside `WS_CAPTION` do not matter |
| RunningApplications.StreamableTitles | OpenScreen.Core/Screenshot/WinFeatures/RunningApplications.cs:145-148 | no offered title is empty |
| RunningApplications.StreamableTitlesOrigin | OpenScreen.Core/Screenshot/WinFeatures/RunningApplications.cs:145-148 | every offered title is the title of an enumerated window that is visible and has a caption |
| RunningApplications.RunningAppsCollector.constructor | OpenScreen.Core/Screenshot/WinFeatures/RunningApplications.cs:137 | the list starts empty |
| RunningApplications.RunningAppsCollector.FilterCallback | OpenScreen.Core/Screenshot/WinFeatures/RunningApplications.cs:139-159 | appends the title of a visible captioned window with a title, then removes the first entry with that title if the window is iconic or cloaked; always asks for more windows |
| RunningApplications.GetListOfRunningApps | OpenScreen.Core/Screenshot/WinFeatures/RunningApplications.cs:135-164 | every enumerated window goes through the callback, in order, and the result is the fold of the callback over them |
| RunningApplications.CollectedFromStreamable | OpenScreen.Core/Screenshot/WinFeatures/RunningApplications.cs:145-163 | the surviving titles are titles of streamable windows, in enumeration order |
| RunningApplications.CollectedFromStreamableWindow | OpenScreen.Core/Screenshot/WinFeatures/RunningApplications.cs:145-163 | every title in the result belongs to an enumerated window that is visible and has a caption |
| RunningApplications.CollectedHasNoEmptyTitle | OpenScreen.Core/Screenshot/WinFeatures/RunningApplications.cs:145 | the result never contains an empty title |
| RunningApplications.MinimisedWindowRemovesEarlierEntry | OpenScreen.Core/Screenshot/WinFeatures/RunningApplications.cs:153-156 | a minimised window removes the entry another window with the same title added earlier |

## Left out

- The streaming server is not modelled: threads, the accept loop, sockets, the client counter and the `IsRunning` property are left out. Only the call order inside one client thread is modelled, by `StreamingSession.ServeClient`.
- `Thread.Sleep(Delay)` between frames is left out; the model has no clock. `FrameRate.Delay` gives the value slept.
- JPEG encoding (`Image.Save`) is a function parameter `encode` of the frame enumerator. Its output is any byte sequence up to `int.MaxValue` bytes.
- Screen capture (`Screenshot`, `MouseCursor`, `ApplicationWindow`) does not appear in the model. The images are a sequence of values of a type parameter.
- `MjpegStream.MjpegFrames`: the images are a finite `seq`, while `GetMjpegStream` accepts any `IEnumerable` and the server's capture series may never end. The end-of-stream disposal in `MoveNext` and the closed stream in `StreamingSession.ServeClient` therefore cover finite sources only.
- The Win32 calls in `RunningApplications` (`EnumDesktopWindows`, `GetWindowText`, `GetWindowLong`, `IsWindowVisible`, `IsIconic`, `DwmGetWindowAttribute`) are replaced by one `WindowInfo` record per window, in enumeration order. The 255-character title buffer is not modelled.
- `RunningApplications.GetListOfRunningApps`: the early stop when the callback returns false is never exercised, because `FilterCallback` always returns true.
- `MainWindow.CmdArgsValidation`: `Environment.GetCommandLineArgs()` is the `args` parameter, with the program name included. The settings values are `ipText0` and `portText0`. The button click and the window hiding become the `UiAction` list.
- `MainWindow.CmdArgsValidation`: the `IndexOutOfRangeException` is the `failed` flag, and what the caller does with it is not modelled.
- `MainWindow.AppWindowComboBox.OnDropDownOpened`: `GetInfoAboutRunningApps` is given as the `runningApps` parameter. The combobox selection and the item display are not part of this model.
- Widgets and UI work have no counterpart in the model: `RbOption_Checked`, the `ConfigureUi*` methods, `BtnStartStopStream_Click`, the timer, `PrintInfo`, settings persistence and `CheckSocket`.
- Exceptions other than the modelled ones do not appear in the model: null references, disposed streams, the `MemoryStream` size limit and the resolution `ArgumentOutOfRangeException` are modelled. Socket and I/O errors on the client stream are not, so `StreamingSession.ServeClient` assumes the client stays connected.
- `TextEncoding.LongToString`: the current culture's negative sign is taken to be '-'. Only negative values are affected, and a buffer length never is.
