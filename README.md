# superclip: the clipboard read path, modelled in Dafny

superclip is a small Wayland clipboard reader. `load_clipboard_content` in
`src/copy.rs` works in three steps:

1. It collects the content types that the current selection offers advertise.
2. It picks the plain UTF-8 text type.
3. It reads the transferred bytes from a pipe and decodes them as UTF-8.

This project models the three pieces of local logic in that path. Every
Wayland request, dispatch and syscall becomes an input sequence.

- **Offers** (`offers.dfy`) models the `Filter` closure of `get_offers`.
  - Each `wl_data_device.data_offer` event subscribes the new offer to the filter.
  - Each `wl_data_offer.offer` event on a subscribed offer stores `type := offer` in the shared map, so the last writer wins.
  - Every other event is ignored.
  - `OfferStore` is a class with the subscribed set and the map as fields. `Handle` is one call of the closure, and `Dispatch` hands it a sequence of events.
  - `Run` is the same fold as a function. `RunFromEmpty` describes the resulting store directly in terms of the event sequence.
- **Clipboard** (`clipboard.dfy`) models the `for` loop over a snapshot of the map.
  - The map's iteration order is unspecified, so each step picks a remaining key arbitrarily.
  - If no key is `text/plain;charset=utf-8`, the result is "No suitable data found" and no request is made.
  - Otherwise the loop creates a pipe, asks that key's offer to `receive`, makes a roundtrip and closes the writer. Then it reads, decodes and returns from within that iteration.
- **Transfer** (`transfer.dfy`) models the read loop.
  - A 4096-byte `array` starts zeroed and is reused for every read.
  - Each non-empty read overwrites the front of the buffer. Then the **whole** buffer is appended to the result, as line 197 is written.
  - A zero-length read ends the loop. A read error aborts it.
- **Utf8** (`utf8.dfy`) models `String::from_utf8` as a recursive well-formedness predicate following the UTF-8 syntax in section 4 of RFC 3629. It also has a decoder, an encoder and the `valid_up_to` position of the error.
- **Errors** (`errors.dfy`) holds the result and error values, and the error strings that the core itself builds.

The intended behaviour of the transfer is byte-exact reassembly. For example:

- three reads of 4096, 4096 and 10 bytes should give exactly the 8202 bytes sent;
- the bytes of `hello` should decode to `hello`.

The code does not do this, and the model follows the code:

- Each non-empty read appends all 4096 bytes of the buffer.
- `Transfer.ThreeReads` shows that the three reads give 12288 bytes.
- `Clipboard.SingleReadText` shows that a text sent in one read comes back followed by NUL characters up to 4096 bytes.
- `Transfer.ByteExactIff` shows that the result equals the concatenation of what was read exactly when every read filled the buffer.
- After a full read, a shorter one leaves stale bytes behind the new ones. `Clipboard.StaleBytesRejectText` shows that this can make a text that was sent intact fail to decode. `Clipboard.StaleBytesExample` gives one such text.

The read end of the pipe is never closed by the code, and the model has no descriptor state.

## Model

| member | source | states |
|---|---|---|
| Offers.OfferStore.constructor | src/copy.rs:94 | the store starts with nothing subscribed and an empty map |
| Offers.OfferStore.Handle | src/copy.rs:97-112 | `offer` on a subscribed offer sets that type to that offer and keeps every other key and value; `data_offer` adds the id to the subscribed set and leaves the map alone; every other event changes nothing |
| Offers.OfferStore.Dispatch | src/copy.rs:129-137 | the events are handed to the filter one at a time, in order; the new state is the fold of the events over the old one |
| Offers.RunSubscribed | src/copy.rs:105-109 | after any events, the subscribed offers are exactly those announced by a `data_offer` |
| Offers.RunKeys | src/copy.rs:97-112 | the map's keys are exactly the types advertised by an offer after that offer was announced |
| Offers.RunValues | src/copy.rs:99-101 | each key maps to the offer of the last event that advertised it |
| Offers.RunFromEmpty | src/copy.rs:97-112 | the three facts above together, for a run from the empty store |
| Offers.LastWriterWins | src/copy.rs:101 | two announced offers advertising the same type leave the later one in the map |
| Offers.GetOffers | src/copy.rs:125-140 | the map `get_offers` returns after the delivered events: keys exactly the types advertised after announcement, each mapped to its last advertiser |
| Clipboard.SelectAndFetch | src/copy.rs:174-211 | without the text type: "No suitable data found" and no request; with it: exactly one `receive`, on that key's offer with that type; a failed roundtrip returns its error before the writer is closed; otherwise the result is the decoded outcome of the read loop |
| Clipboard.LoadClipboardContent | src/copy.rs:166-211 | the text is fetched exactly when some announced offer advertised the text type, and from the offer that advertised it last; the error cases as above |
| Transfer.FirstStop | src/copy.rs:191-201 | the loop ends at the first zero-length read or error, and no earlier result ends it |
| Transfer.Overlay | src/copy.rs:193 | a read writes its bytes to the front of the buffer and leaves the rest as it was |
| Transfer.ReadInto | src/copy.rs:193 | the array after a read is the old buffer overlaid by the bytes read |
| Transfer.ReadToEnd | src/copy.rs:188-206 | the loop over a reused zeroed 4096-byte array returns the error of a failed read, or the whole buffer appended once per non-empty read before the zero-length one |
| Transfer.ReadOutcomeShape | src/copy.rs:191-206 | the outcome is an error exactly when the loop stopped at an error, carrying that error's text; otherwise its length is 4096 times the number of non-empty reads, and every read before the stop delivered bytes |
| Transfer.AccumulatedLength | src/copy.rs:196-197 | every non-empty read grows the result by exactly 4096 bytes |
| Transfer.AccumulatedBlock | src/copy.rs:197 | block k of the result is the buffer as it was right after read k |
| Transfer.BufferAfterAt | src/copy.rs:188-197 | a buffer byte comes from the latest read that reached it, or is an initial zero |
| Transfer.BlockContents | src/copy.rs:188-199 | each block starts with the bytes just read; every later byte is a leftover from the latest earlier read that reached it, or zero |
| Transfer.FlattenLength | src/copy.rs:193-197 | the bytes delivered never exceed 4096 per read, and fill that exactly when every read is full |
| Transfer.ByteExactIff | src/copy.rs:197 | the result equals the concatenation of the bytes read if and only if every read filled the buffer |
| Transfer.ShortReadPadded | src/copy.rs:193-197 | a single one-byte read gives that byte followed by 4095 zeros |
| Transfer.ThreeReads | src/copy.rs:191-206 | reads of 4096, 4096 and 10 bytes deliver 8202 bytes but give a 12288-byte result |
| Transfer.EmptyTransfer | src/copy.rs:196-199 | a zero-length first read gives an empty result |
| Utf8.CharLengthGrammar | src/copy.rs:208 | the length of the character at the front is n exactly when the octets match the RFC 3629 alternative of length n |
| Utf8.CodePointIsScalar | src/copy.rs:208 | every well-formed character spells a Unicode scalar value: no surrogate, nothing above U+10FFFF |
| Utf8.EncodeWellFormed | src/copy.rs:208 | the encoding of any text is well-formed and decodes back to that text |
| Utf8.DecodeEncode | src/copy.rs:208 | a well-formed sequence decodes to a text that encodes back to exactly that sequence |
| Utf8.ValidPrefix | src/copy.rs:208 | the longest well-formed prefix is well-formed, no character starts right after it, and it is the whole sequence exactly when the sequence is well-formed |
| Utf8.FromUtf8 | src/copy.rs:208 | success exactly for well-formed bytes, with a text that encodes back to them; otherwise only an error carrying the valid-up-to position, and no partial text |
| Utf8.AppendWellFormed | src/copy.rs:208 | concatenations of well-formed sequences are well-formed and decode to the concatenated texts |
| Utf8.SuffixWellFormed | src/copy.rs:208 | if a and a + b are both well-formed, so is b |
| Clipboard.FetchOutcome | src/copy.rs:202-208 | a read error is returned as is; otherwise the outcome is a text exactly when the accumulated bytes are well-formed, and that text encodes back to them |
| Clipboard.ReadErrorMessage | src/copy.rs:202-204 | a read error is reported as "Error when reading: " followed by its text |
| Clipboard.EmptyClipboard | src/copy.rs:196-208 | a zero-length first read returns the empty text |
| Clipboard.ZerosDecode | src/copy.rs:188 | the zero bytes of the buffer decode to NUL characters |
| Clipboard.SingleRead | src/copy.rs:193-199 | one read of n bytes gives those bytes followed by 4096 - n zeros |
| Clipboard.SingleReadText | src/copy.rs:188-208 | a text sent in one read comes back followed by NUL characters up to the buffer's length |
| Clipboard.FullThenShort | src/copy.rs:193-197 | a full read then a shorter one gives the first buffer, then the new bytes followed by the stale tail of the first read |
| Clipboard.StaleBytesRejectText | src/copy.rs:193-208 | a text whose well-formed encoding is sent intact, as a full read and then one ASCII byte, is rejected, because the stale continuation octet lands right behind the new byte |
| Clipboard.StaleBytesExample | src/copy.rs:193-208 | 2048 copies of U+00E9 then "A" is such a text: it is sent intact and rejected |

## Left out

- Connection and registry setup (`Display::connect_to_env`, `GlobalManager`, `instantiate_range` and their "Seat: " and "Device manager: " errors, src/copy.rs:114-123, 147-159): Wayland library plumbing with no local logic.
- `start_surface` (src/copy.rs:21-85): it creates a window as a side effect and has no clipboard logic.
- The errors of the two `dispatch` calls and of the roundtrip after `get_offers` (src/copy.rs:129-137, 167-170): these are library failures. The events that were delivered are an input sequence.
- The blocking and timing of `dispatch` and `sync_roundtrip`: the model has one thread and no clock.
- `Arc<Mutex<…>>` around the map: execution is single-threaded, so the map is plain state. A poisoned lock (`unwrap`) is not modelled.
- `nix::unistd::pipe`, `close` and `read`: these syscalls are replaced by the requests they stand for and by a sequence of read results. The panics of `pipe().unwrap()` and `close(...).expect(...)` are not modelled.
- Transfer.ReadToEnd: requires that no read delivers more than 4096 bytes (the kernel never does) and that some read ends the loop. A transfer that never ends blocks in `read` for ever in the source.
- `HashMap` iteration order: it is unspecified. The model picks each key arbitrarily, and at most one key can match.
- Events of an offer the filter was never assigned to: they never reach the closure, so the model ignores them.
- The wording of the UTF-8 error text (`FromUtf8Error::to_string`): it comes from Rust's standard library. The model keeps only the valid-up-to position.
- `debug!` logging, the `show_mime` flag (only logged) and `src/main.rs` (command-line glue): none of them affects the result.
