/** The packet every transport takes. */
module Media {
  import opened Bytes

  datatype Codec = Jpeg | H264 | Pcm

  datatype MediaPacket = MediaPacket(codec: Codec, key: bool, timestamp: u64, data: bytes)
}
