/** The small value types the CAN modules share. */
module CanTypes {
  import opened Words

  datatype Option<+T> = None | Some(value: T)

  datatype CanError = PayloadTooLarge | SignalOutOfRange | ValueOutOfRange | ParseError

  datatype Result<+T> = Ok(value: T) | Err(error: CanError)

  const EXTENDED_FLAG: u32 := 0x8000_0000
  const MAX_CLASSIC_LENGTH := 8
  const MAX_FD_LENGTH := 64

  /** An identifier word: bit 31 marks an extended (29-bit) identifier. */
  datatype CanId = CanId(raw: u32)
  {
    predicate Extended() {
      (raw / 0x8000_0000) % 2 == 1
    }

    function Identifier(): (n: u32)
      ensures n < if Extended() then 0x2000_0000 else 0x800
    {
      if Extended() then raw % 0x2000_0000 else raw % 0x800
    }
  }

  function ExtendedId(n: nat): CanId {
    CanId(n % 0x2000_0000 + EXTENDED_FLAG)
  }

  function StandardId(n: nat): CanId {
    CanId(n % 0x800)
  }

  /** A received or built frame as a value: its identifier and its data bytes. */
  datatype Frame = Frame(id: CanId, data: seq<u8>)

  function ClassicFrame(id: CanId, payload: seq<u8>): (r: Result<Frame>)
    ensures r.Ok? <==> |payload| <= MAX_CLASSIC_LENGTH
  {
    if |payload| > MAX_CLASSIC_LENGTH then Err(PayloadTooLarge) else Ok(Frame(id, payload))
  }
}
