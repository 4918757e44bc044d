/**
  The application layer of the Crypto.com Ledger client (`CryptoApp`):
  the command frames for address derivation and signing, and the checks
  and copies that turn the device's answers into an `Address` or a
  `Signature`.

  The transport is not modelled. `GetAddress` receives the exchange as a
  function from the command sent to the device's answer, and `Sign`
  receives the chunked sender as a function from the start command and the
  message to the answer to the last chunk. The serialised derivation path
  is an arbitrary byte sequence.
 */
module CryptoApp {
  import opened BoundedInts
  import opened Wrappers
  import opened LedgerTypes
  import Utf8Encoding

  /** The class byte identifying the Crypto.com application on the device. */
  const CLA: uint8 := 0x08
  /** Instruction: derive a secp256k1 public key and its address. */
  const INS_GET_ADDR_SECP256K1: uint8 := 0x01
  /** Instruction: sign with a secp256k1 key. */
  const INS_SIGN_SECP256K1: uint8 := 0x02
  /** Length of an uncompressed secp256k1 public key. */
  const PK_LEN: nat := 65
  /** Length of a recoverable signature (the source writes the literal 65). */
  const SIGNATURE_LEN: nat := 65

  type PublicKey = s: seq<uint8> | |s| == PK_LEN witness seq(PK_LEN, _ => 0)

  type Signature = s: seq<uint8> | |s| == SIGNATURE_LEN witness seq(SIGNATURE_LEN, _ => 0)

  /** A public key and the address the device derives from it. */
  datatype Address = Address(publicKey: PublicKey, address: string)

  /** The device's answer to one command, or the failure of the transport. */
  type Exchange = ApduCommand -> Result<ApduAnswer, TransportError>

  /**
    The chunked sender: given the start frame and the message, the answer to
    the last frame it sends, or the error that stopped it.
   */
  type ChunkSender = (ApduCommand, seq<uint8>) -> Result<ApduAnswer, LedgerError>

  /**
    The address request: this application's class, the address instruction,
    `p1` set exactly when the user must confirm on the device, `p2` zero and
    the serialised path as data, unchanged.
   */
  function AddressCommand(path: seq<uint8>, requireConfirmation: bool): (c: ApduCommand)
    ensures c.cla == 0x08 && c.ins == 0x01 && c.p2 == 0
    ensures c.p1 == 1 <==> requireConfirmation
    ensures c.p1 == 0 <==> !requireConfirmation
    ensures c.data == path
  {
    var p1 := if requireConfirmation then 1 else 0;
    ApduCommand(CLA, INS_GET_ADDR_SECP256K1, p1, 0x00, path)
  }

  /**
    The first frame of a signing session: this application's class, the
    sign instruction, the Init chunk marker, `p2` zero and the serialised
    path as data.
   */
  function SignStartCommand(path: seq<uint8>): (c: ApduCommand)
    ensures c.cla == 0x08 && c.ins == 0x02 && c.p1 == CHUNK_INIT && c.p2 == 0
    ensures c.data == path
  {
    ApduCommand(CLA, INS_SIGN_SECP256K1, CHUNK_INIT, 0x00, path)
  }

  /**
    The address answer: at least `PK_LEN` bytes, of which the first
    `PK_LEN` are the public key and the rest the address in UTF-8. A short
    answer is `InvalidPK` before any decoding; a long enough one whose tail
    is not well-formed UTF-8 is `Utf8`. The status word is not looked at.
   */
  function DecodeAddress(answer: ApduAnswer): (r: Result<Address, LedgerError>)
    ensures |answer.data| < PK_LEN ==> r == Err(InvalidPK)
    ensures |answer.data| >= PK_LEN && !Utf8Encoding.IsUtf8(answer.data[PK_LEN..]) ==> r == Err(Utf8)
    ensures |answer.data| >= PK_LEN && Utf8Encoding.IsUtf8(answer.data[PK_LEN..]) ==>
      r.Ok? &&
      r.value.publicKey == answer.data[..PK_LEN] &&
      Utf8Encoding.Encode(r.value.address) == answer.data[PK_LEN..]
  {
    if |answer.data| < PK_LEN then
      Err(InvalidPK)
    else
      var tail := answer.data[PK_LEN..];
      Utf8Encoding.DecodeAcceptsGrammar(tail);
      match Utf8Encoding.Decode(tail)
      case None => Err(Utf8)
      case Some(s) => Ok(Address(answer.data[..PK_LEN], s))
  }

  /**
    The signature answer. Empty data with the success status is
    `NoSignature`; otherwise any length but `SIGNATURE_LEN` is
    `InvalidSignature`, whatever the status; and a signature is the answer's
    data, byte for byte.
   */
  function DecodeSignature(answer: ApduAnswer): (r: Result<Signature, LedgerError>)
    ensures r == Err(NoSignature) <==> answer.data == [] && answer.retcode == NO_ERROR
    ensures r == Err(InvalidSignature) <==>
      |answer.data| != SIGNATURE_LEN && !(answer.data == [] && answer.retcode == NO_ERROR)
    ensures r.Ok? <==> |answer.data| == SIGNATURE_LEN
    ensures r.Ok? ==> r.value == answer.data
  {
    if answer.data == [] && answer.retcode == NO_ERROR then
      Err(NoSignature)
    else if |answer.data| != SIGNATURE_LEN then
      Err(InvalidSignature)
    else
      Ok(answer.data)
  }

  /**
    `get_address`: send the address request, propagate a transport
    failure, and otherwise fill a zeroed `Address` from the answer as
    `DecodeAddress` describes.
   */
  method GetAddress(path: seq<uint8>, requireConfirmation: bool, exchange: Exchange)
    returns (r: Result<Address, LedgerError>)
    ensures exchange(AddressCommand(path, requireConfirmation)).Err? ==>
      r == Err(Transport(exchange(AddressCommand(path, requireConfirmation)).error))
    ensures exchange(AddressCommand(path, requireConfirmation)).Ok? ==>
      r == DecodeAddress(exchange(AddressCommand(path, requireConfirmation)).value)
  {
    var command := AddressCommand(path, requireConfirmation);
    var reply := exchange(command);
    if reply.Err? {
      return Err(Transport(reply.error));
    }
    var response := reply.value;
    if |response.data| < PK_LEN {
      return Err(InvalidPK);
    }
    var publicKey := new uint8[PK_LEN](_ => 0);
    var address := Address(publicKey[..], "");
    forall i | 0 <= i < PK_LEN {
      publicKey[i] := response.data[i];
    }
    assert publicKey[..] == response.data[..PK_LEN];
    address := address.(publicKey := publicKey[..]);
    var text := Utf8Encoding.Decode(response.data[PK_LEN..]);
    if text.None? {
      return Err(Utf8);
    }
    address := address.(address := text.value);
    return Ok(address);
  }

  /**
    `sign`: hand the start frame and the message to the chunked sender,
    propagate its error unchanged, and otherwise check the last answer and
    copy its 65 bytes into a zeroed signature, as `DecodeSignature`
    describes.
   */
  method Sign(path: seq<uint8>, message: seq<uint8>, sendChunks: ChunkSender)
    returns (r: Result<Signature, LedgerError>)
    ensures sendChunks(SignStartCommand(path), message).Err? ==>
      r == Err(sendChunks(SignStartCommand(path), message).error)
    ensures sendChunks(SignStartCommand(path), message).Ok? ==>
      r == DecodeSignature(sendChunks(SignStartCommand(path), message).value)
  {
    var startCommand := SignStartCommand(path);
    var reply := sendChunks(startCommand, message);
    if reply.Err? {
      return Err(reply.error);
    }
    var response := reply.value;
    if response.data == [] && response.retcode == NO_ERROR {
      return Err(NoSignature);
    }
    if |response.data| != SIGNATURE_LEN {
      return Err(InvalidSignature);
    }
    var sig := new uint8[SIGNATURE_LEN](_ => 0);
    forall i | 0 <= i < SIGNATURE_LEN {
      sig[i] := response.data[i];
    }
    assert sig[..] == response.data;
    return Ok(sig[..]);
  }

  /** The address frame carries the whole request: path and confirmation flag are recoverable. */
  lemma AddressCommandInjective(path: seq<uint8>, b: bool, path': seq<uint8>, b': bool)
    requires AddressCommand(path, b) == AddressCommand(path', b')
    ensures path == path' && b == b'
  {
  }

  /**
    The device's answer layout round-trips: a public key followed by the
    UTF-8 bytes of an address decodes to exactly that key and address,
    whatever the status word.
   */
  lemma AddressAnswerRoundTrip(retcode: uint16, key: PublicKey, address: string)
    ensures DecodeAddress(ApduAnswer(retcode, key + Utf8Encoding.Encode(address))) == Ok(Address(key, address))
  {
    var data := key + Utf8Encoding.Encode(address);
    assert data[..PK_LEN] == key && data[PK_LEN..] == Utf8Encoding.Encode(address);
    Utf8Encoding.DecodeEncode(address);
  }

  /**
    Decoding loses nothing: a decoded address's key and the UTF-8 bytes of
    its address are the answer's data, in order.
   */
  lemma DecodedAddressIsAnswer(answer: ApduAnswer)
    requires DecodeAddress(answer).Ok?
    ensures DecodeAddress(answer).value.publicKey + Utf8Encoding.Encode(DecodeAddress(answer).value.address) == answer.data
  {
  }

  /**
    An answer of exactly `PK_LEN` bytes is accepted with an empty address:
    nothing requires the address to be non-empty.
   */
  lemma KeyOnlyAnswerHasEmptyAddress(answer: ApduAnswer)
    requires |answer.data| == PK_LEN
    ensures DecodeAddress(answer) == Ok(Address(answer.data, ""))
  {
    assert answer.data[PK_LEN..] == [] && answer.data[..PK_LEN] == answer.data;
    assert Utf8Encoding.Decode([]) == Some([]);
  }

  /** The status word has no influence on address decoding. */
  lemma DecodeAddressIgnoresStatus(data: seq<uint8>, retcode: uint16, retcode': uint16)
    ensures DecodeAddress(ApduAnswer(retcode, data)) == DecodeAddress(ApduAnswer(retcode', data))
  {
  }

  /** A 65-byte signature sent back by the device is returned unchanged, whatever the status word. */
  lemma SignatureAnswerRoundTrip(retcode: uint16, sig: Signature)
    ensures DecodeSignature(ApduAnswer(retcode, sig)) == Ok(sig)
  {
  }
}
