// What travels between a sender and a receiver (util/tcp_sender_message.hh, util/tcp_receiver_message.hh).
module Messages {
  import opened Words

  datatype SenderMessage = SenderMessage(seqno: U32, syn: bool, payload: seq<Byte>, fin: bool)
  {
    // How many sequence numbers the message occupies.
    function SequenceLength(): nat { Bit(syn) + |payload| + Bit(fin) }
  }

  datatype ReceiverMessage = ReceiverMessage(ackno: Option<U32>, windowSize: U16)
}
