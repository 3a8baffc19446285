/**
 * The error enumerations `file_error_t` (over `uint16_t`), `strdec_error_t`
 * and `decomp_error_t` (over `uint8_t`), and their messages. The message
 * functions switch on the raw code, so every value of the underlying type
 * gets one.
 */
module ErrCodes {
  import opened Bits

  datatype FileError = MagicReadError | InvalidMagic | UnknownType | ReadError | InputExhausted | FileUnspecified
  datatype StrdecError = Invalid | Malformed | Overrun | StrdecUnspecified
  datatype DecompError = DecompInvalid | DecompUnspecified

  /** The underlying type's maximum, `std::numeric_limits<...>::max()`. */
  function MaxOf(bits: nat): nat
  {
    Pow2(bits) - 1
  }

  lemma MaxValues()
    ensures MaxOf(8) == 0xFF && MaxOf(16) == 0xFFFF
  {
    Pow2Values();
  }

  function FileCode(e: FileError): (c: nat)
    ensures c <= MaxOf(16)
  {
    MaxValues();
    match e
    case MagicReadError => 0
    case InvalidMagic => 1
    case UnknownType => 2
    case ReadError => 3
    case InputExhausted => 4
    case FileUnspecified => MaxOf(16)
  }

  function StrdecCode(e: StrdecError): (c: nat)
    ensures c <= MaxOf(8)
  {
    MaxValues();
    match e
    case Invalid => 0
    case Malformed => 1
    case Overrun => 2
    case StrdecUnspecified => MaxOf(8)
  }

  function DecompCode(e: DecompError): (c: nat)
    ensures c <= MaxOf(8)
  {
    match e
    case DecompInvalid => 0
    case DecompUnspecified => MaxOf(8)
  }

  /** The codes are 0, 1, 2, ... in declaration order, and Unspecified is the type's maximum, above all others. */
  lemma Encodings()
    ensures FileCode(FileUnspecified) == 0xFFFF
    ensures StrdecCode(StrdecUnspecified) == 0xFF && DecompCode(DecompUnspecified) == 0xFF
    ensures forall e :: e != FileUnspecified ==> FileCode(e) < FileCode(FileUnspecified)
    ensures forall e :: e != StrdecUnspecified ==> StrdecCode(e) < StrdecCode(StrdecUnspecified)
    ensures forall e :: e != DecompUnspecified ==> DecompCode(e) < DecompCode(DecompUnspecified)
    ensures forall e, f :: FileCode(e) == FileCode(f) ==> e == f
    ensures forall e, f :: StrdecCode(e) == StrdecCode(f) ==> e == f
  {
    MaxValues();
  }

  /** `file_error_message(err)`, for any 16-bit code. */
  function FileErrorMessage(code: nat): (r: string)
    requires code <= MaxOf(16)
    ensures r == "Unspecified file error" <==> forall e :: e != FileUnspecified ==> code != FileCode(e)
  {
    assert FileCode(MagicReadError) == 0 && FileCode(InvalidMagic) == 1 && FileCode(UnknownType) == 2;
    assert FileCode(ReadError) == 3 && FileCode(InputExhausted) == 4;
    if code == 0 then "Unable to read file magic"
    else if code == 1 then "Invalid file magic"
    else if code == 2 then "Unknown file type"
    else if code == 3 then "File I/O Error"
    else if code == 4 then "Input exhausted, but did not complete import"
    else "Unspecified file error"
  }

  /**
   * Each named file error has a message of its own; Unspecified and every
   * unnamed code share the "Unspecified file error" message.
   */
  lemma FileMessages(code: nat)
    requires code <= MaxOf(16)
    ensures forall e, f :: FileErrorMessage(FileCode(e)) == FileErrorMessage(FileCode(f)) ==> e == f
    ensures (forall e :: code != FileCode(e)) ==> FileErrorMessage(code) == FileErrorMessage(FileCode(FileUnspecified))
  {
    MaxValues();
    if forall e :: code != FileCode(e) {
      assert code != FileCode(MagicReadError) && code != FileCode(InvalidMagic) && code != FileCode(UnknownType);
      assert code != FileCode(ReadError) && code != FileCode(InputExhausted);
    }
  }

  /** `strdec_error_message(err)` as written: no case for Overrun. */
  function StrdecErrorMessage(code: nat): (r: string)
    requires code <= MaxOf(8)
    ensures r == "Unspecified string decoding error" <==> code != StrdecCode(Invalid) && code != StrdecCode(Malformed)
  {
    if code == 0 then "String is not valid for the given encoding"
    else if code == 1 then "String is malformed"
    else "Unspecified string decoding error"
  }

  /** Overrun gets the message of Unspecified. */
  lemma StrdecOverrunFinding()
    ensures StrdecErrorMessage(StrdecCode(Overrun)) == StrdecErrorMessage(StrdecCode(StrdecUnspecified))
  {
    MaxValues();
  }

  /** `strdec_error_message(err)` with a case for Overrun, worded from its description. */
  function StrdecErrorMessageFixed(code: nat): (r: string)
    requires code <= MaxOf(8)
    ensures r == "Unspecified string decoding error" <==> forall e :: e != StrdecUnspecified ==> code != StrdecCode(e)
  {
    assert StrdecCode(Invalid) == 0 && StrdecCode(Malformed) == 1 && StrdecCode(Overrun) == 2;
    if code == StrdecCode(Overrun) then "String length overruns the buffer"
    else StrdecErrorMessage(code)
  }

  /** Every named string decoding error has a message of its own; unnamed codes read as Unspecified. */
  lemma StrdecMessagesFixed(code: nat)
    requires code <= MaxOf(8)
    ensures forall e, f :: StrdecErrorMessageFixed(StrdecCode(e)) == StrdecErrorMessageFixed(StrdecCode(f)) ==> e == f
    ensures (forall e :: code != StrdecCode(e)) ==> StrdecErrorMessageFixed(code) == StrdecErrorMessageFixed(StrdecCode(StrdecUnspecified))
  {
    MaxValues();
    if forall e :: code != StrdecCode(e) {
      assert code != StrdecCode(Invalid) && code != StrdecCode(Malformed) && code != StrdecCode(Overrun);
    }
  }

  /** `decomp_error_message(err)` as written. */
  function DecompErrorMessage(code: nat): (r: string)
    requires code <= MaxOf(8)
    ensures r == "Unspecified string decoding error" <==> code != DecompCode(DecompInvalid)
  {
    if code == 0 then "Input buffer is not valid compressed data"
    else "Unspecified string decoding error"
  }

  /** An unspecified decompression error reads as an unspecified string decoding error. */
  lemma DecompUnspecifiedFinding()
    ensures DecompErrorMessage(DecompCode(DecompUnspecified)) == StrdecErrorMessage(StrdecCode(StrdecUnspecified))
  {
    MaxValues();
  }

  /** `decomp_error_message(err)` with its own fallback message. */
  function DecompErrorMessageFixed(code: nat): (r: string)
    requires code <= MaxOf(8)
    ensures r == "Unspecified decompression error" <==> code != DecompCode(DecompInvalid)
  {
    if code == 0 then DecompErrorMessage(code) else "Unspecified decompression error"
  }

  /** No decompression message is a string decoding message; the two named codes read differently. */
  lemma DecompMessagesFixed(code: nat, other: nat)
    requires code <= MaxOf(8) && other <= MaxOf(8)
    ensures DecompErrorMessageFixed(code) != StrdecErrorMessageFixed(other)
    ensures DecompErrorMessageFixed(DecompCode(DecompInvalid)) != DecompErrorMessageFixed(DecompCode(DecompUnspecified))
  {
    MaxValues();
  }
}
