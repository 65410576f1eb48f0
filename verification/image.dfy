/** `Payload` (src/payload.rs:10-13): the in-memory image both decoders build
    and both encoders consume. */
module Image {
  import opened Bytes

  /** `start_address` is a `usize`; it is kept unbounded here and every place
      where the source casts it to `u32` truncates it explicitly. */
  datatype Payload = Payload(startAddress: nat, bytes: seq<byte>)
}
