/** `AS2MessageMDN`: the receipt for an inbound AS2 message (section 7 of RFC 4130).
    Its routing headers are the original's swapped (section 6.2 of RFC 4130), and its
    Message-ID has the msg-id shape of section 3.6.4 of RFC 5322:
    `<OPENAS2-date-NNNN@receiver_sender>`. */
module As2Mdn {
  import opened Wrappers
  import opened Partnerships
  import opened Messages
  import opened Decimal

  /** The `SimpleDateFormat` pattern used when the partnership sets none. */
  const DefaultDateFormat := "ddMMyyyyHHmmssZ"

  /** Partnership keys of `CPartnershipIDs` (not part of this model; the spelling of
      the keys plays no part in any property below). */
  const PidAs2 := "as2_id"
  const PaDateFormat := "mid_date_format"

  const IdPrefix := "<OPENAS2-"

  /** The constructor. `base` is the MDN as the superclass constructor leaves it
      (`AbstractMessageMDN` is not part of this model); then AS2-To is set to the
      original's AS2-From and AS2-From to the original's AS2-To, a missing header
      removing the MDN's own. */
  function NewMdn(msg: Message, base: MessageMdn): (mdn: MessageMdn)
    ensures GetHeader(mdn.headers, HeaderAs2To) == GetHeader(msg.headers, HeaderAs2From)
    ensures GetHeader(mdn.headers, HeaderAs2From) == GetHeader(msg.headers, HeaderAs2To)
    ensures forall n :: n != HeaderAs2To && n != HeaderAs2From ==> GetHeader(mdn.headers, n) == GetHeader(base.headers, n)
    ensures mdn.partnership == base.partnership
  {
    var toSet := SetHeader(base.headers, HeaderAs2To, GetHeader(msg.headers, HeaderAs2From));
    base.(headers := SetHeader(toSet, HeaderAs2From, GetHeader(msg.headers, HeaderAs2To)))
  }

  /** The swap is an involution: an MDN built for a message carrying the first MDN's
      routing headers routes back exactly like the original message. */
  lemma SwapTwiceRestoresRouting(msg: Message, base: MessageMdn, carrier: Message, base2: MessageMdn)
    requires carrier.headers == NewMdn(msg, base).headers
    ensures GetHeader(NewMdn(carrier, base2).headers, HeaderAs2From) == GetHeader(msg.headers, HeaderAs2From)
    ensures GetHeader(NewMdn(carrier, base2).headers, HeaderAs2To) == GetHeader(msg.headers, HeaderAs2To)
  {
  }

  /** The date pattern: the MDN's own partnership's date-format attribute, or the default. */
  function DatePattern(mdn: MessageMdn): (pattern: string)
    ensures PaDateFormat in mdn.partnership.attributes ==> pattern == mdn.partnership.attributes[PaDateFormat]
    ensures PaDateFormat !in mdn.partnership.attributes ==> pattern == DefaultDateFormat
  {
    GetAttributeOr(mdn.partnership, PaDateFormat, DefaultDateFormat)
  }

  /** `generateMessageID`. The clock is `formatNow` (the current time rendered with a
      pattern) and `random` is the draw of `nextInt (10000)`. The date pattern comes
      from the MDN's own partnership, the AS2 IDs from the original message's; an ID
      that is not set is appended as "null". */
  function GenerateMessageId(mdn: MessageMdn, origin: Message, formatNow: string -> string, random: nat): (id: string)
    requires random < 10000
    ensures |id| > |IdPrefix| && id[..|IdPrefix|] == IdPrefix
    ensures id[|id| - 1] == '>'
  {
    var date := formatNow(DatePattern(mdn));
    var receiver := JavaText(GetReceiverID(origin.partnership, PidAs2));
    var sender := JavaText(GetSenderID(origin.partnership, PidAs2));
    IdPrefix + date + "-" + Format0000(random) + "@" + receiver + "_" + sender + ">"
  }

  /** Reading the id back: after the prefix comes the date formatted with the chosen
      pattern, a dash, exactly four digits that parse to the random draw, an at-sign,
      and then the receiver's AS2 ID before the sender's, joined by an underscore. */
  lemma MessageIdSegments(mdn: MessageMdn, origin: Message, formatNow: string -> string, random: nat)
    requires random < 10000
    ensures var id := GenerateMessageId(mdn, origin, formatNow, random);
            var date := formatNow(DatePattern(mdn));
            var p := |IdPrefix| + |date|;
            && |id| > p + 6
            && id[|IdPrefix|..p] == date
            && id[p] == '-'
            && (forall i :: p + 1 <= i < p + 5 ==> IsDigit(id[i]))
            && ParseDecimal(id[p + 1..p + 5]) == random
            && id[p + 5] == '@'
            && id[p + 6..] == JavaText(GetReceiverID(origin.partnership, PidAs2)) + "_"
                              + JavaText(GetSenderID(origin.partnership, PidAs2)) + ">"
  {
    Format0000RoundTrip(random);
    var id := GenerateMessageId(mdn, origin, formatNow, random);
    var date := formatNow(DatePattern(mdn));
    var pad := Format0000(random);
    var tail := JavaText(GetReceiverID(origin.partnership, PidAs2)) + "_" + JavaText(GetSenderID(origin.partnership, PidAs2)) + ">";
    var p := |IdPrefix| + |date|;
    assert id == IdPrefix + date + "-" + pad + "@" + tail;
    assert id[|IdPrefix|..p] == date;
    assert id[p + 1..p + 5] == pad;
    assert id[p + 6..] == tail;
  }

  /** The two partnerships the id draws on do not mix: the date pattern depends only
      on the MDN's partnership and the AS2 IDs only on the original message's. */
  lemma MessageIdPartnershipSources(mdn: MessageMdn, origin: Message, other: Partnership, formatNow: string -> string, random: nat)
    requires random < 10000
    requires other.senderIDs == origin.partnership.senderIDs && other.receiverIDs == origin.partnership.receiverIDs
    requires other.attributes == mdn.partnership.attributes
    ensures GenerateMessageId(mdn.(partnership := other), origin.(partnership := other), formatNow, random)
            == GenerateMessageId(mdn, origin, formatNow, random)
  {
  }
}
