# Siemens PLC data logger — Dafny model

The logger connects to a Siemens S7 PLC, reads one data block and writes it to a
CSV file. The file has a header row. After it comes one row per byte offset: the
offset, the raw byte, its truthiness, the big-endian signed 16-bit integer starting
at that offset (`'>h'`) and the big-endian binary32 value starting there (`'>f'`).
The integer and float windows overlap from one offset to the next. Where a window
would run past the end of the block, the field is written empty.

This project models:

- `BlockDecoder` (`block_decoder.dfy`): the per-offset decoding as pure functions.
  Bytes are a `byte` newtype. The float is kept as its raw 32-bit pattern
  (`uint32`), never as a number. `Int16Bytes` and `Float32Bytes` are the matching
  encoders, and lemmas prove both round trips. The lemmas about `Decode` state the
  row count, the offsets, presence of each field at the tail, the range of the
  integer, and that row `i` reads nothing outside its own window.
- `CsvExport` (`csv_export.dfy`): the records of the written file (`Csv`), and the
  export loop as the method `WriteBlockCsv`. The method writes the header and then
  appends one record per offset. It is proved to produce exactly `Csv(data)`.
- `PlcLogger` (`plc_logger.dfy`): the window's session as the class
  `PlcDataLogger`. It holds the settings, the read-button state, the status line,
  the trace of calls made on the PLC client, and the files written. The client is
  an oracle. Its answer to `get_connected()` and the block it delivers are method
  parameters. The class invariant says three things: no connect is made with an
  empty address; no block query or read is made unless the client has just
  reported the connection up; and the read button is enabled only after a
  confirmed connect.

For the block `00 01 3F 80 00 00`, row 0's float comes from bytes 0–3
(pattern `0x00013F80`). The pattern of 1.0, `0x3F800000`, is the float of row 2
(`BlockDecoder.ExampleFloatOne`).

## Model

| member | source | states |
|---|---|---|
| `BlockDecoder.Int16Be` | src/siemens-plc-data-logger.py:125 | the `'>h'` value of two bytes lies in [-32768, 32767] and is negative exactly when the high byte's top bit is set |
| `BlockDecoder.Int16BytesOfInt16Be` | src/siemens-plc-data-logger.py:125 | encoding the decoded value in 16-bit two's complement, high byte first, gives back the two bytes |
| `BlockDecoder.Int16BeOfInt16Bytes` | src/siemens-plc-data-logger.py:125 | every value in [-32768, 32767] is decoded from its own two's-complement bytes, so the decoding is a bijection onto that range |
| `BlockDecoder.Float32BitsBe` | src/siemens-plc-data-logger.py:130 | the big-endian binary32 pattern has its sign bit set exactly when the first byte's top bit is set |
| `BlockDecoder.Float32BytesOfBitsBe` | src/siemens-plc-data-logger.py:130 | splitting the pattern of a four-byte window, most significant byte first, gives back the window |
| `BlockDecoder.Float32BitsBeOfBytes` | src/siemens-plc-data-logger.py:130 | every 32-bit pattern, NaN and infinity included, is read back unchanged from its bytes |
| `BlockDecoder.RowAt` | src/siemens-plc-data-logger.py:119-130 | the row for offset `i` holds byte `i` and its truthiness; it has an integer exactly when `i + 1 < n`, whose two's-complement bytes are bytes `i`, `i + 1`, and a float exactly when `i + 3 < n`, whose big-endian bytes are bytes `i` to `i + 3` |
| `BlockDecoder.Decode` | src/siemens-plc-data-logger.py:118-132 | the decoded block has one row per byte, and row `i` is the row for offset `i` |
| `BlockDecoder.DecodeFrom` | src/siemens-plc-data-logger.py:118-132 | decoding from offset `from` yields one row for each remaining byte |
| `BlockDecoder.DecodeFromAt` | src/siemens-plc-data-logger.py:118-132 | the row at position `k - from` of the decoding from `from` is the row for offset `k` |
| `BlockDecoder.DecodeOffsets` | src/siemens-plc-data-logger.py:118-132 | exactly one row per byte, offsets 0 to n-1 in ascending order, and no rows for an empty block |
| `BlockDecoder.DecodeRawAndBool` | src/siemens-plc-data-logger.py:119-120 | row `i` holds byte `i`, and its bool is true exactly when that byte is non-zero |
| `BlockDecoder.DecodeInt` | src/siemens-plc-data-logger.py:123-125 | row `i` has an integer exactly when `i + 1 < n`; the integer is in 16-bit range and its big-endian two's-complement bytes are bytes `i` and `i + 1` |
| `BlockDecoder.DecodeFloat` | src/siemens-plc-data-logger.py:128-130 | row `i` has a float exactly when `i + 3 < n`; its big-endian bytes are bytes `i` to `i + 3` |
| `BlockDecoder.OnlyTailRowsLackFields` | src/siemens-plc-data-logger.py:123-130 | only the last row lacks an integer, and only the last three rows lack a float |
| `BlockDecoder.RowReadsOnlyItsWindow` | src/siemens-plc-data-logger.py:118-130 | row `i` depends only on bytes `i` to `min(i + 3, n - 1)`: no read falls outside the buffer or outside the row's window |
| `BlockDecoder.WindowsOverlap` | src/siemens-plc-data-logger.py:123-130 | the windows of neighbouring rows overlap: for every `i + 1 < n`, row `i`'s integer ends with row `i + 1`'s byte; when both rows have a float, row `i`'s float shares three bytes with row `i + 1`'s |
| `BlockDecoder.ExampleFloatOne` | src/siemens-plc-data-logger.py:118-132 | for `00 01 3F 80 00 00`, row 0 has the integer 1 and pattern `0x00013F80`; row 2 has pattern `0x3F800000` (1.0); row 3 has no float and row 5 has no integer |
| `BlockDecoder.ExampleShortBlock` | src/siemens-plc-data-logger.py:118-132 | `FF 00 01` decodes to three rows with the integers -256 and 1, no floats, and no integer in the last row |
| `CsvExport.Render` | src/siemens-plc-data-logger.py:118-132 | a record has one field per header column, holding the offset, byte and bool; the integer field is the empty string exactly when the row has no integer and otherwise holds that integer (`int_val`) exactly, and the float field likewise is empty exactly when there is no float and otherwise holds its pattern (`float_val`) |
| `CsvExport.Csv` | src/siemens-plc-data-logger.py:115-132 | the file is the header record followed, for each offset `i` in turn, by the record of row `i` |
| `CsvExport.CsvShape` | src/siemens-plc-data-logger.py:115-132 | the file is the header followed by exactly one record per byte, numbered 0 to n-1; an empty block gives the header alone |
| `CsvExport.CsvRecord` | src/siemens-plc-data-logger.py:118-132 | record `i + 1` shows byte `i`, its truthiness, the `'>h'` value of bytes `i` and `i + 1` or an empty field, and the `'>f'` pattern of bytes `i` to `i + 3` or an empty field |
| `CsvExport.WriteBlockCsv` | src/siemens-plc-data-logger.py:115-132 | the loop that writes the header and then appends one record per offset produces exactly `Csv(data)` |
| `PlcLogger.Guarded` | src/siemens-plc-data-logger.py:72-103 | a call trace respects the guards: every connect has a non-empty address (py:74-76); every block query directly follows `get_connected()` answering true (py:92-94); every block read starts at offset 0 and directly follows the query of the same block (py:99-103) |
| `PlcLogger.GuardedAppend` | src/siemens-plc-data-logger.py:72-103 | appending calls that respect the guards in their new place keeps the whole call trace guarded |
| `PlcLogger.NoBlockReadWithoutConnection` | src/siemens-plc-data-logger.py:92-103 | in a guarded trace, every block read follows a size query of the same block, which follows `get_connected()` answering true |
| `PlcLogger.PreserveConfirmed` | src/siemens-plc-data-logger.py:80-82 | once a connect has been confirmed, it stays confirmed as further calls are made |
| `PlcLogger.PlcDataLogger.Valid` | src/siemens-plc-data-logger.py:54-86 | the session invariant: the call trace is guarded, and while the read button is enabled (it starts disabled, py:54, and only a connect that `get_connected()` confirms enables it, py:80-82) some connect with a non-empty address was directly followed by `get_connected()` answering true |
| `PlcLogger.PlcDataLogger.constructor` | src/siemens-plc-data-logger.py:15-18 | a new window has an empty address, DB 1, rack 0, slot 1, a disabled read button, no client calls and no files |
| `PlcLogger.PlcDataLogger.SetSettings` | src/siemens-plc-data-logger.py:33-44 | the user's entries replace the address, DB number, rack and slot |
| `PlcLogger.PlcDataLogger.ConnectToPlc` | src/siemens-plc-data-logger.py:72-86 | an empty address fails before the client is called and leaves the state unchanged; otherwise connect and `get_connected()` are called, the status shows the outcome, and the read button is enabled only when the client reports the connection up |
| `PlcLogger.PlcDataLogger.ReadDbAndSave` | src/siemens-plc-data-logger.py:91-134 | when `get_connected()` is false, the method fails without querying or reading the block and writes no file; otherwise it queries the size, reads the whole block from offset 0, and saves exactly `Csv(block)` |

## Left out

- The tkinter GUI (layout, message boxes, log text widget, the colours of the status label) has no logic. Message boxes become the `Outcome` results, and log lines are not modelled.
- The snap7 client and the S7 wire protocol are a foreign library. `connect` is recorded as a call. The answer of `get_connected()` and the bytes of the block are method parameters.
- `PlcLogger.PlcDataLogger.ReadDbAndSave`: the size the logger takes from element 2 of `db_get`'s result (lines 99-100) and the bytes that `db_read` returns are one parameter, so the size is always the buffer's length. A read shorter than the reported size is not modelled. On such a read the original raises part-way through the file: `struct.error` from `unpack_from`, or `IndexError` when the buffer is empty.
- The `except Exception` handlers around connecting and reading (lines 87-89 and 137-139) are error reporting around I/O. A connect or block read that raises is not modelled.
- The file name built from `datetime.now()`, opening the file, and `csv.writer` quoting are I/O and clock dependent. The file is modelled as its sequence of records.
- The numeric value of the float and the text Python prints for each field are left out. The float is modelled as its 32-bit pattern.
