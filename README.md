# A verified model of the echo server's connection handler

The server accepts TCP connections and hands each one to `handle_client`
(src/main.rs:58-107). That function reads from the client into a reused
512-byte buffer and reacts to each chunk it reads:

- an empty read (end of stream) ends the loop silently;
- a chunk that is not well-formed UTF-8 is answered with `Need utf-8 sequence.`, and the loop reads again;
- a chunk whose first character is `@` is answered with `Bye bye and see you soon.\n`, and the loop ends;
- any other chunk is echoed back as `buf[..bytes_read]`.

A failed read or write (`expect`, `unwrap`) panics the handler's thread. So
does the slice `s[0..1]` when the first character of a well-formed chunk is
longer than one byte: byte 1 is then not a char boundary.

This project models the handler in Dafny in five modules.

- `Seqs` (seqs.dfy) holds generic facts about slicing and concatenating sequences.
- `Utf8` (utf8.dfy) covers UTF-8 as RFC 3629 defines it.
  - `Valid` is the byte-sequence grammar of section 4, which is the rule `str::from_utf8` applies.
  - `Encode` is the encoding table of section 3.
  - Round-trip lemmas show that a byte sequence is well formed exactly when it encodes a sequence of Unicode scalar values.
- `RustStr` (str.dfy) models the two pieces of Rust's `str` the handler relies on.
  - `IsCharBoundary` is `str::is_char_boundary`, with the `b as i8 >= -0x40` test written out in two's complement.
  - `Slice` is range indexing `&s[i..j]`; it yields `None` where Rust panics.
- `Handler` (handler.dfy) is the specification.
  - `React` is the decision for one chunk.
  - `Loop` and `Run` fold that decision over a sequence of read results, together with the write calls that fail. They yield a `Session`: how the handler ended, the bytes it wrote, and how many reads and writes it made.
  - Lemmas state when the loop stops, why, and what it wrote.
- `Connection` (connection.dfy) is the imperative handler.
  - `TcpStream` is a class whose fields are the read results still to come, the bytes written so far and the number of write calls made.
  - `HandleClient` allocates the 512-byte `array`. It loops over rounds of `Read` into the array, `React` on `buf[..bytesRead]` and `Write`. Its contract proves that it ends, writes and consumes exactly what `Run` says.
  - `Read` leaves the bytes after `bytesRead` as they were. `HandleClient` writes the array slice, not the read result. Its contract therefore shows that stale bytes from an earlier, longer read are never sent.

## Model

| member | source | states |
|---|---|---|
| `Utf8.EncodeThenDecode` | src/main.rs:83 | every sequence of scalar values encodes to well-formed UTF-8 that decodes back to the same values |
| `Utf8.DecodeThenEncode` | src/main.rs:83 | every well-formed byte sequence decodes to scalar values whose encoding is the same bytes |
| `Utf8.ValidIffEncoding` | src/main.rs:83 | the grammar that `from_utf8` checks accepts exactly the encodings of scalar-value sequences, in both directions |
| `Utf8.DecodeCharRoundTrip` | src/main.rs:83 | a well-formed first char decodes to a scalar value that re-encodes to exactly its bytes |
| `Utf8.EncodeScalarRoundTrip` | src/main.rs:83 | the encoding of a scalar value is one well-formed char, whatever follows it, and it decodes back to that value |
| `Utf8.AsciiIsValid` | src/main.rs:83 | bytes all below 0x80 always pass the UTF-8 check |
| `Utf8.NextCharStart` | src/main.rs:96 | in well-formed text, the byte after the first char is never a continuation byte |
| `RustStr.FirstByteSlice` | src/main.rs:96 | on well-formed non-empty text, `s[0..1]` is the one-byte string holding the first byte when that byte is below 0x80, and panics otherwise |
| `RustStr.SplitValid` | src/main.rs:96 | cutting well-formed text at a char boundary leaves well-formed text on both sides |
| `RustStr.SliceIsValid` | src/main.rs:96 | a slice `&s[begin..end]` of well-formed text that does not panic is itself well-formed text, as Rust promises of every `str` slice |
| `RustStr.SecondByteBoundary` | src/main.rs:96 | in well-formed text, byte 1 is a char boundary exactly when the first byte is below 0x80 |
| `Handler.React` | src/main.rs:70-105 | for each chunk: end of stream exactly when it is empty; the warning exactly when it is not UTF-8; a panic exactly when it is well formed with first byte at least 0x80; the farewell exactly when it is well formed with first byte `@`; otherwise an echo of the chunk itself |
| `Handler.Loop` | src/main.rs:64-106 | the loop never makes more reads than there are read results, and never more writes than reads; if it has not stopped, it used every read result with one write each |
| `Handler.LoopStopsAtFirstStop` | src/main.rs:64-106 | every read before the stopping one kept the connection open with a successful write, and the stopping read did not |
| `Handler.LoopExitReason` | src/main.rs:66-105 | each way of ending is caused by the matching read: end of stream, farewell (its write succeeded), read error, boundary panic, or a write that failed; the farewell and a failed write are the only stopping reads that make a write call |
| `Handler.LoopStopsAt` | src/main.rs:64-106 | conversely, if the first `k` reads keep the connection open and read `k` does not, the loop makes exactly `k + 1` reads and ends as read `k` calls for: read error, end of stream, boundary panic, failed write, or farewell; if every read keeps it open, the handler is left waiting to read |
| `Handler.LoopOutput` | src/main.rs:64-106 | everything written is the in-order concatenation of one response per read made, leaving out the read whose write failed |
| `Handler.LoopIgnoresLaterEvents` | src/main.rs:70-101 | once the loop has stopped, read results after the stopping point change nothing: no further reads and no further writes |
| `Handler.LoopAppend` | src/main.rs:64-106 | a loop that used up its read results without stopping carries on with later ones from the next write call, with outputs and counts added |
| `Handler.RunFirst` | src/main.rs:64-106 | a run is its first read followed, if that read did not end the loop, by the run on the rest |
| `Handler.ExitOnChunks` | src/main.rs:66-101 | the handler ends silently only on an empty read and panics on a read only for a read error; it says goodbye only after a well-formed chunk that starts with `@`, with the farewell as the last bytes written; the slice panic happens only on a well-formed chunk whose first byte is 0x80 or above |
| `Handler.EchoesBurst` | src/main.rs:105 | a burst split into echoable chunks, with no write failing, is sent back whole and in order, and the handler is left waiting to read |
| `Handler.LaterAtIsEchoed` | src/main.rs:96 | `hi@there` is echoed: an `@` after the first byte does not end the connection |
| `Handler.MultiByteFirstCharPanics` | src/main.rs:96 | the well-formed chunk `C3 A9` (`é`) makes `s[0..1]` panic |
| `Handler.ReplyLengths` | src/main.rs:89-98 | the warning is 20 bytes ending in `.`; the farewell is 26 bytes ending in a newline |
| `Connection.TcpStream.Read` | src/main.rs:62-66 | a read consumes one read result: on an error it returns `None` and leaves the buffer alone; otherwise it returns the chunk's length, the buffer starts with the chunk, and the bytes after it are unchanged |
| `Connection.TcpStream.Write` | src/main.rs:105 | a write call fails exactly when its number is one of the failing ones; a successful write appends the whole slice, a failed one appends nothing |
| `Connection.Round` | src/main.rs:66-105 | one pass through the loop body does what the run on that single read result does: the same writes, the same write calls, and it goes on exactly when that run did not stop |
| `Connection.HandleClient` | src/main.rs:58-107 | over the 512-byte array buffer, the handler ends as `Run` says, sends exactly `Run`'s output, consumes exactly `Run`'s reads and makes exactly `Run`'s write calls |

## Left out

- `main` (src/main.rs:22-52) is not modelled. It covers binding the listener, the accept loop and the panic on a failed accept. This is socket plumbing with no decision to verify.
- `thread::spawn` per connection is not modelled. Each handler owns its stream and buffer outright, so one handler is modelled on its own.
- The `println!` debug output is not modelled, including the `from_utf8` call at line 77 that exists only for printing.
- Connection.TcpStream.Write: does not model partial writes. `write` may accept fewer bytes than it is given, and the handler discards that count. The model treats a successful write as sending the whole slice.
- Connection.TcpStream.Read: how the kernel splits the client's bytes into reads is not modelled. The read results are given as input, each at most 512 bytes long (`TcpStream.Valid`).
- A blocking `read` that never returns is not modelled. When the given read results run out, the handler ends as `Blocked`, meaning it is still waiting in `read`.
- Which write calls fail is given as an input: the set of failing call numbers. A panic of the thread is the result `Panicked` with its cause, not an unwinding.
- The comment at src/main.rs:104 says the handler sends back whatever it receives. The code does not: `s[0..1]` slices at byte 1, so a well-formed chunk whose first character is longer than one byte panics the handler. The model follows the code (`Handler.React`, `Handler.MultiByteFirstCharPanics`).
