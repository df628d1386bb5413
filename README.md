# Double-size rewrite of the print monitor service

The print monitor service watches a folder for raw ESC/POS receipt files and
sends each one to a receipt printer. Before printing, it rewrites the bytes so
that the text prints in double size. This project models that rewrite
(`ProcessFileWithDoubleSize`) and proves its properties.

The rewrite makes one left-to-right pass over the bytes. At each scan position
it checks three cases, in this order:

- A **separator run** is 42 dash bytes (0x2D). It is copied verbatim and the
  scan moves on 42 bytes.
- A **size command** is `ESC '!' x` (0x1B 0x21 x). It is emitted as
  `ESC '!' 0x30` and the scan moves on 3 bytes.
- Any **other byte** is copied and the scan moves on 1 byte.

After the pass comes the **fallback**. The pass output is searched for an
`ESC '!'` pair starting at some index `j < length - 2`. If there is none,
`ESC '!' 0x30` is prepended.

Files:

- `rewriter.dfy` (module `DoubleSizeRewriter`) holds the specification. It
  defines bytes as a `newtype`, the tokens (`SeparatorAt`, `CommandAt`, `Step`,
  `Token`), the scan (`ScanFrom`, `ScanPass`), the fallback (`HasEscPair`) and
  the whole rewrite (`Rewrite`). `Reached(s, i)` says the scan stops at
  position `i`. `ParamRewritten(s, k)` says byte `k` is the parameter of a
  command the scan rewrote. The module also holds the lemmas.
- `print_monitor_service.dfy` (module `PrintMonitorService`) holds the method
  as the service runs it. It has a `while` loop over a byte array and appends
  to a `seq<byte>` that stands for the `List<byte>`. The 42-byte separator
  test and the fallback search are loops that exit with `break`. The prefix
  is inserted at the front, and the result is returned as a new array. The
  loop invariant is "output so far ++ scan of the rest == scan of the whole
  input". The method's postcondition is `output[..] == Rewrite(data[..])`.

Some notes on the code as written:

- **The fallback window.** The search bound `j < result.Count - 2` never
  looks at the last pair. A trailing `ESC '!'` has no parameter byte, so it is
  copied as plain bytes and the prefix is still added
  (`TrailingPairStillPrefixed`). The bound is still exactly right for its
  purpose. `EscPairIsCommand` shows that any `ESC '!'` pair the search can
  find is a rewritten command, followed by 0x30. `EscPairIffDoubleSize` and
  `EscPairIffRewroteCommand` prove that "no pair found" means "no
  `ESC '!' 0x30` in the output", and also "the scan rewrote no size
  command".
- **Idempotence.** One might expect that rewriting twice could prepend the
  command a second time. It cannot: `RewriteIdempotent` proves
  `Rewrite(Rewrite(s)) == Rewrite(s)` for every input.
- **Test order.** A separator run starts with a dash and a size command
  starts with ESC, so both can never match at the same position
  (`SeparatorExcludesCommand`). The model still runs the separator test
  first, as the code does.
- **`continue`.** The code leaves the separator branch with `continue`. The
  model uses an `if / else if / else` chain instead, which is equivalent. The
  separator test runs only when at least 42 bytes remain, as in the code.

## Model

| member | source | states |
|---|---|---|
| `PrintMonitorService.ProcessFileWithDoubleSize` | PrintMonitorService.cs:130-197 | The returned array is new and holds exactly `Rewrite(data)`: the scan pass with separators, size commands and plain bytes, then the fallback prefix. |
| `PrintMonitorService.IsSeparatorRun` | PrintMonitorService.cs:144-154 | The flag is true iff all 42 bytes from `i` are dashes. |
| `PrintMonitorService.HasEscCommand` | PrintMonitorService.cs:181-189 | The flag is true iff the bytes hold `ESC '!'` at some `j < length - 2`. The last pair is not inspected. |
| `DoubleSizeRewriter.Step` | PrintMonitorService.cs:142-179 | Each iteration advances the index by exactly 42, 3 or 1 and never past the end of the input. So the loop terminates and every index read is in range. |
| `DoubleSizeRewriter.Token` | PrintMonitorService.cs:156-178 | Each iteration appends exactly as many bytes as it consumes. |
| `DoubleSizeRewriter.ScanFrom` | PrintMonitorService.cs:142-179 | The scan pass from any position emits exactly as many bytes as remain. |
| `DoubleSizeRewriter.SeparatorExcludesCommand` | PrintMonitorService.cs:144-173 | A separator run and a size command never start at the same position. |
| `DoubleSizeRewriter.SeparatorCopied` | PrintMonitorService.cs:144-164 | At a scan position, 42 dashes are copied verbatim and the scan resumes 42 bytes later. This includes a run that ends exactly at the end of the buffer. |
| `DoubleSizeRewriter.CommandRewritten` | PrintMonitorService.cs:167-173 | At a scan position that holds `ESC '!'` with a third byte, the output holds `ESC '!' 0x30` whatever the parameter was. The scan resumes 3 bytes later. |
| `DoubleSizeRewriter.PlainCopied` | PrintMonitorService.cs:174-178 | At any other scan position, the byte is copied unchanged and the scan moves on by one. |
| `DoubleSizeRewriter.ScanFromAt` | PrintMonitorService.cs:142-179 | From any starting point, each output byte is 0x30 if it is the parameter of a rewritten command, and the input byte at the same index otherwise. |
| `DoubleSizeRewriter.ScanPassAt` | PrintMonitorService.cs:142-179 | Before the fallback, the output differs from the input only at the parameter byte of rewritten size commands. All other bytes are copied unchanged and in order. |
| `DoubleSizeRewriter.TokenStart` | PrintMonitorService.cs:142-179 | Every input index lies inside the token that starts at some scan position. |
| `DoubleSizeRewriter.ReachedChain` | PrintMonitorService.cs:142-179 | Of two positions the loop reaches, the later one is reached by continuing the loop from the earlier one. |
| `DoubleSizeRewriter.TokenStartUnique` | PrintMonitorService.cs:142-179 | Two scan positions whose tokens both cover an index are the same position, so each input byte belongs to exactly one token. |
| `DoubleSizeRewriter.EscPairIsCommand` | PrintMonitorService.cs:167-189 | In the scan output, an `ESC '!'` pair followed by at least one byte is always a size command of the input at a scan position. It was rewritten, so its third byte is 0x30. |
| `DoubleSizeRewriter.ScanPassFixed` | PrintMonitorService.cs:142-179 | If every size command in a stream already has parameter 0x30, the scan pass leaves the stream unchanged. |
| `DoubleSizeRewriter.ScanPassIdempotent` | PrintMonitorService.cs:142-179 | Running the scan pass on its own output changes nothing. |
| `DoubleSizeRewriter.RewriteLength` | PrintMonitorService.cs:142-194 | The output is as long as the input, or exactly 3 bytes longer when the fallback fires. |
| `DoubleSizeRewriter.EscPairIffDoubleSize` | PrintMonitorService.cs:181-189 | The search finds an `ESC '!'` pair at `j < length - 2` in the scan output iff the scan output contains a full `ESC '!' 0x30`. Skipping the last pair misses no double-size command. |
| `DoubleSizeRewriter.EscPairIffRewroteCommand` | PrintMonitorService.cs:167-189 | The search finds a pair in the scan output iff the scan rewrote at least one size command of the input. |
| `DoubleSizeRewriter.FallbackExactly` | PrintMonitorService.cs:181-194 | `ESC '!' 0x30` is prepended iff the scan rewrote no size command. Otherwise the scan output is returned unchanged. |
| `DoubleSizeRewriter.RewriteHasDoubleSize` | PrintMonitorService.cs:167-194 | Every output contains at least one `ESC '!' 0x30`. It comes either from a rewritten command or from the prepended fallback. |
| `DoubleSizeRewriter.NoEscPrefixed` | PrintMonitorService.cs:142-194 | An input without any 0x1B byte comes out as `ESC '!' 0x30` followed by the unchanged input. |
| `DoubleSizeRewriter.EmptyInput` | PrintMonitorService.cs:140-194 | The empty input yields exactly `ESC '!' 0x30`. |
| `DoubleSizeRewriter.ShortInputPrefixed` | PrintMonitorService.cs:142-194 | Any input shorter than 3 bytes, including one that holds ESC, is copied through unchanged and gets `ESC '!' 0x30` prepended, because the search window `j < length - 2` is empty. |
| `DoubleSizeRewriter.RewriteIdempotent` | PrintMonitorService.cs:130-197 | Rewriting an already rewritten stream changes nothing. |
| `DoubleSizeRewriter.ParameterForced` | PrintMonitorService.cs:167-173 | `ESC '!' 0x99` comes out as `ESC '!' 0x30`, with no prefix. |
| `DoubleSizeRewriter.SeparatorOnly` | PrintMonitorService.cs:144-194 | A lone separator run is kept verbatim, and the fallback still prepends `ESC '!' 0x30`. |
| `DoubleSizeRewriter.SeparatorThenCommand` | PrintMonitorService.cs:144-194 | A separator run followed by `ESC '!' 0x05` comes out as the run followed by `ESC '!' 0x30`, with no prefix. |
| `DoubleSizeRewriter.TicketExample` | PrintMonitorService.cs:142-194 | `ESC '!' 0x00 'H' 'I'` comes out as `ESC '!' 0x30 'H' 'I'`. |
| `DoubleSizeRewriter.TrailingPairStillPrefixed` | PrintMonitorService.cs:181-194 | A trailing 2-byte `ESC '!'` does not suppress the prefix. `ESC '!'` comes out as `ESC '!' 0x30 ESC '!'`. |

## Left out

- `OnNewFileCreated` (PrintMonitorService.cs:74-128) is not modelled. It
  consists of a process-wide lock, a 500 ms sleep, reading the file, unmanaged
  memory for the printer call, moving the file after a successful print, and
  logging. All of that is concurrency and file-system I/O.
- `RawPrinterHelper` (PrintMonitorService.cs:200-262) is not modelled. It
  consists of Windows spooler calls (`winspool.Drv`) and the exception raised
  when they fail. These are foreign calls whose behaviour is not visible here.
- `ExecuteAsync` and `InitializeFileWatcher` (PrintMonitorService.cs:29-72)
  are not modelled. They are hosted-service lifecycle code: folder checks,
  file-watcher setup and a delay loop.
- Program.cs is not modelled. It only configures the Windows-service host and
  logging.
- Logging calls are not modelled. They are side effects with no behaviour.
- .NET arrays cannot hold more than about 2^31 bytes. The model's lengths and
  indices are unbounded integers instead. The index arithmetic
  (`data.Length - 42`, `data.Length - 3`, `i + 42`) stays within range for
  any array .NET can allocate.
- `ProcessFileWithDoubleSize` does not model running out of memory. Take an
  input whose length is within 3 bytes of the largest array .NET allows, and
  that gets the fallback prefix. Then growing the list
  (PrintMonitorService.cs:193) or building the returned array
  (PrintMonitorService.cs:196) throws `OutOfMemoryException`. The model
  instead returns the rewritten bytes.
