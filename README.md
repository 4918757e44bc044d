# Crypto.com Ledger client: application-layer APDU logic

This project models `CryptoApp` in `src/app.rs` of the Rust client for the
Crypto.com application on Ledger hardware wallets, and proves properties of
that model in Dafny. `CryptoApp` turns two requests into command APDUs and
turns the device's answers into typed results:

- `get_address` builds an address request. The frame has class `0x08`,
  instruction `0x01`, `p1` = 1 when the user must confirm on the device and
  0 otherwise, `p2` = 0, and the serialised derivation path as data. It
  exchanges the frame once. It then needs at least 65 bytes of answer: the
  first 65 are the public key, and the rest must be well-formed UTF-8, which
  becomes the address.
- `sign` builds the start frame of a signing session. The frame has class
  `0x08`, instruction `0x02`, `p1` = the Init chunk marker, `p2` = 0, and the
  path as data. It hands this frame and the message to the chunked sender.
  From the last answer it rejects empty data carrying the success status
  (`NoSignature`), then any length other than 65 (`InvalidSignature`). Any
  other answer is copied into the 65-byte signature.

Modules:

- `BoundedInts` (`bounded_ints.dfy`): `uint8` and `uint16`.
- `Wrappers` (`wrappers.dfy`): `Option` and `Result`.
- `LedgerTypes` (`ledger_types.dfy`): the command and answer frames and
  `LedgerError`, which come from the transport and generic Ledger crates.
  It also holds the success status `NO_ERROR` and the Init chunk marker
  `CHUNK_INIT`. Those crates fix both values, so here they are constants
  with no value given.
- `Utf8Encoding` (`utf8.dfy`): the well-formedness check done by
  `str::from_utf8`, following the `UTF8-octets` grammar of section 4 of
  RFC 3629. It holds a checking decoder and the encoder that gives a Rust
  `String`'s bytes. The lemmas prove that the decoder accepts exactly what
  the grammar accepts, and that decoding and encoding are inverse.
- `CryptoApp` (`crypto_app.dfy`): the constants, the two command builders,
  the two answer decoders as functions, and `GetAddress` and `Sign` as
  methods. The methods fill zeroed fixed-size arrays in place, as the source
  does with `copy_from_slice`. Their contracts tie them to the decoders.

The exchange and the chunked sender are parameters of the methods. Each is a
function from what is sent to what comes back, so each method's contract can
say which frame it sent.

An answer of exactly 65 bytes passes the length check and yields an empty
address (`KeyOnlyAnswerHasEmptyAddress`). The code never requires a
non-empty address. `get_address` also never looks at the status word
(`DecodeAddressIgnoresStatus`).

## Model

| member | source | states |
|---|---|---|
| CryptoApp.AddressCommand | src/app.rs:82-91 | class 0x08, instruction 0x01, p2 0, data equal to the serialised path; p1 is 1 exactly when confirmation is required and 0 exactly when it is not |
| CryptoApp.SignStartCommand | src/app.rs:116-123 | class 0x08, instruction 0x02, p1 the Init chunk marker, p2 0, data equal to the serialised path |
| CryptoApp.DecodeAddress | src/app.rs:95-111 | fewer than 65 bytes gives InvalidPK before any UTF-8 check; otherwise a tail that is not well-formed UTF-8 gives Utf8; otherwise the key is data[..65] and the address's UTF-8 bytes are exactly data[65..] |
| CryptoApp.DecodeSignature | src/app.rs:129-141 | NoSignature exactly when the data is empty and the status is success; InvalidSignature exactly for the other lengths than 65; success exactly at length 65, with the signature equal to the data byte for byte |
| CryptoApp.GetAddress | src/app.rs:77-112 | the result comes from the exchange's answer to AddressCommand(path, flag): a transport failure comes back as Transport with the same cause; otherwise the result is DecodeAddress of the answer |
| CryptoApp.Sign | src/app.rs:115-142 | hands SignStartCommand(path) and the message to the chunked sender; its error is returned unchanged, with no decoding; otherwise the result is DecodeSignature of the last answer |
| CryptoApp.AddressCommandInjective | src/app.rs:83-91 | equal address frames come from equal paths and equal confirmation flags |
| CryptoApp.AddressAnswerRoundTrip | src/app.rs:101-109 | a 65-byte key followed by the UTF-8 bytes of an address decodes to exactly that key and address, whatever the status |
| CryptoApp.DecodedAddressIsAnswer | src/app.rs:106-109 | a decoded key followed by its address's UTF-8 bytes is the answer's data |
| CryptoApp.KeyOnlyAnswerHasEmptyAddress | src/app.rs:95-109 | an answer of exactly 65 bytes is accepted with the empty address |
| CryptoApp.DecodeAddressIgnoresStatus | src/app.rs:93-111 | answers that differ only in the status word decode alike |
| CryptoApp.SignatureAnswerRoundTrip | src/app.rs:134-141 | a 65-byte answer decodes to itself as the signature, whatever the status |
| Utf8Encoding.Decode | src/app.rs:107-108 | whatever `from_utf8` returns encodes back to exactly its input |
| Utf8Encoding.DecodeChar | src/app.rs:107-108 | the scalar value of a well-formed UTF-8 character encodes back to that character's bytes |
| Utf8Encoding.DecodeEncodeChar | src/app.rs:107-109 | decoding the encoding of a scalar value gives that value |
| Utf8Encoding.DecodeEncode | src/app.rs:107-109 | decoding the UTF-8 bytes of any string gives back that string |
| Utf8Encoding.DecodeAcceptsGrammar | src/app.rs:107-108 | `from_utf8` succeeds exactly on the byte strings the RFC 3629 grammar accepts |
| Utf8Encoding.EncodeIsUtf8 | src/app.rs:107-109 | the UTF-8 bytes of every string are accepted by the grammar |
| Utf8Encoding.EncodeInjective | src/app.rs:107-109 | two strings with the same UTF-8 bytes are equal |

## Left out

- GetAddress: its contract does not state how many times the exchange is called. The source calls it once (src/app.rs:93), and with confirmation on, a second call would mean a second prompt on the device.
- The transport exchange (src/app.rs:93) is asynchronous HID/USB I/O. It is a function parameter of `GetAddress`. Being a function, it gives the same answer to the same command, which a real device need not do.
- The chunked sender `send_chunks` (src/app.rs:126) is in the generic Ledger crate, which is not part of this model. It is a function parameter of `Sign`. Its chunk size, its Add/Last markers, the order of its frames and its own errors are not modelled. The empty-message rejection (`InvalidEmptyMessage`) is one such error: it is not raised in `src/app.rs`, and `Sign` only passes it on.
- The numeric values of the success status and of the Init marker are fixed by the transport and generic crates. Here they are constants with no value given.
- `get_version`, `get_app_info` and `get_device_info` (src/app.rs:62-74) only pass through to the generic crate.
- Parsing and serialising the BIP-44 path is done by an external crate. The serialised path is an arbitrary byte sequence.
- The debug log line (src/app.rs:99) is not modelled.
- `cla()` (src/app.rs:57-59) only returns `CLA`, so the model uses the constant directly.
- The integration tests need a physical device. Their key and address vectors come from key derivation on the device, not from this code.
- `LedgerError` has only the variants this code produces, plus `InvalidEmptyMessage`. The generic crate's other errors, which `Sign` would pass on unchanged, are not modelled.
