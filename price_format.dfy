/**
 * The two texts the bot builds from a price and its 24-hour change: the
 * presence status `"$<price> (<sign><change>%)"` and the reply to the
 * `price` command.  The change arrives from the feed as text; the bot
 * compares that text with zero (`> 0`, `< 0`) under its language's loose
 * numeric coercion and then appends the raw text itself.  A `Change` keeps
 * exactly those two things: the raw text and the outcome of the comparisons.
 */
module PriceFormat {
  import opened Wrappers
  import opened Strings

  /** How the change text compares with zero: above, below, or neither (zero, or not a number). */
  datatype Sign = Positive | Negative | Neither

  datatype Change = Change(text: string, sign: Sign)

  /** The sign character put in front of the change text. */
  function SignMark(s: Sign): string
  {
    match s
    case Positive => "+"
    case Negative => "-"
    case Neither => ""
  }

  /** The sign character followed by the raw change text. */
  function Signed(c: Change): string
  {
    SignMark(c.sign) + c.text
  }

  /** The presence status set after each successful fetch. */
  function Status(price: string, c: Change): (r: string)
    ensures |r| == |price| + |Signed(c)| + 5
    ensures r[0] == '$' && r[1..|price| + 1] == price && r[|r| - 2..] == "%)"
  {
    "$" + price + " (" + Signed(c) + "%)"
  }

  const ReplyLabel := "Current price: "

  /** The reply to the `price` command; a line break follows the label when the change has no sign. */
  function PriceReply(price: string, c: Change): (r: string)
    ensures StartsWith(r, ReplyLabel) && r[|r| - 3..] == "%*)"
    ensures |r| == |ReplyLabel| + (if c.sign == Neither then 1 else 0) + |price| + |Signed(c)| + 11
  {
    ReplyLabel + (if c.sign == Neither then "\n" else "") + PriceReplyBody(price, c)
  }

  /** The part of the `price` reply after the label and the optional line break. */
  function PriceReplyBody(price: string, c: Change): string
  {
    "**$" + price + "** (*" + Signed(c) + "%*)"
  }

  /** Reads a status text back into its price and its signed change. */
  function ReadStatus(s: string): Option<(string, string)>
  {
    if |s| >= 3 && s[0] == '$' && s[|s| - 2..] == "%)" then SplitAt(s[1..|s| - 2], " (") else None
  }

  /** Reads a `price` reply back into: whether the label is followed by a line break, the price, the signed change. */
  function ReadPriceReply(s: string): Option<(bool, string, string)>
  {
    if !StartsWith(s, ReplyLabel) then None
    else
      var rest := s[|ReplyLabel|..];
      var lineBreak := rest != [] && rest[0] == '\n';
      var body := if lineBreak then rest[1..] else rest;
      match ReadPriceReplyBody(body)
      case None => None
      case Some((price, signed)) => Some((lineBreak, price, signed))
  }

  /** Reads the part of a `price` reply after the label into the price and the signed change. */
  function ReadPriceReplyBody(body: string): Option<(string, string)>
  {
    if |body| >= 6 && body[..3] == "**$" && body[|body| - 3..] == "%*)" then
      SplitAt(body[3..|body| - 3], "** (*")
    else None
  }

  /** The status text can be read back: its price and signed change are the ones it was built from. */
  lemma StatusRoundTrip(price: string, c: Change)
    requires ' ' !in price
    ensures ReadStatus(Status(price, c)) == Some((price, Signed(c)))
  {
    var s := Status(price, c);
    assert s[0] == '$';
    assert s[|s| - 2..] == "%)";
    assert s[1..|s| - 2] == price + " (" + Signed(c);
    SplitAtJoined(price, " (", Signed(c));
  }

  /** The body of the reply reads back into the price and signed change it was built from. */
  lemma PriceReplyBodyRoundTrip(price: string, c: Change)
    requires '*' !in price
    ensures ReadPriceReplyBody(PriceReplyBody(price, c)) == Some((price, Signed(c)))
  {
    var body := PriceReplyBody(price, c);
    assert body[..3] == "**$";
    assert body[|body| - 3..] == "%*)";
    assert body[3..|body| - 3] == price + "** (*" + Signed(c);
    SplitAtJoined(price, "** (*", Signed(c));
  }

  /** The reply can be read back: the line break is there exactly when the change has no sign, and the price and signed change are the ones it was built from. */
  lemma PriceReplyRoundTrip(price: string, c: Change)
    requires '*' !in price
    ensures ReadPriceReply(PriceReply(price, c)) == Some((c.sign == Neither, price, Signed(c)))
  {
    var s := PriceReply(price, c);
    var lineBreak := if c.sign == Neither then "\n" else "";
    var body := PriceReplyBody(price, c);
    assert s == ReplyLabel + (lineBreak + body);
    assert StartsWith(s, ReplyLabel);
    var rest := s[|ReplyLabel|..];
    assert rest == lineBreak + body;
    assert body[0] == '*';
    assert (rest != [] && rest[0] == '\n') == (c.sign == Neither);
    assert (if c.sign == Neither then rest[1..] else rest) == body;
    PriceReplyBodyRoundTrip(price, c);
  }

  /**
   * The status and the `price` reply follow one sign rule: from the same
   * price and change they carry the same price and the same signed change.
   */
  lemma StatusAgreesWithReply(price: string, c: Change)
    requires ' ' !in price && '*' !in price
    ensures ReadStatus(Status(price, c)).Some? && ReadPriceReply(PriceReply(price, c)).Some?
    ensures ReadStatus(Status(price, c)).value.0 == ReadPriceReply(PriceReply(price, c)).value.1
    ensures ReadStatus(Status(price, c)).value.1 == ReadPriceReply(PriceReply(price, c)).value.2
  {
    StatusRoundTrip(price, c);
    PriceReplyRoundTrip(price, c);
  }

  /**
   * The sign rule, for every change: a positive change gets `+` in front of
   * its text, a negative one `-`, and any other is shown as its raw text.
   */
  lemma SignedChangeLayout(c: Change)
    ensures c.sign == Positive ==> Signed(c) == "+" + c.text
    ensures c.sign == Negative ==> Signed(c) == "-" + c.text
    ensures c.sign == Neither ==> Signed(c) == c.text
    ensures |Signed(c)| == |c.text| + (if c.sign == Neither then 0 else 1)
  {
  }

  /**
   * Only when the raw text carries no sign of its own does the first
   * character tell the sign: `+` exactly for a positive change and `-`
   * exactly for a negative one.  (A text such as `"-0"`, neither above nor
   * below zero, is shown with a leading `-`.)
   */
  lemma SignedChangeLeadIff(c: Change)
    requires c.text == [] || (c.text[0] != '+' && c.text[0] != '-')
    ensures (Signed(c) != [] && Signed(c)[0] == '+') <==> c.sign == Positive
    ensures (Signed(c) != [] && Signed(c)[0] == '-') <==> c.sign == Negative
  {
  }

  /** The text `"-0"` is neither above nor below zero, yet it is shown with a leading `-`. */
  lemma UnsignedTextMayLeadWithMinus()
    ensures Signed(Change("-0", Neither))[0] == '-'
  {
  }

  /**
   * A negative change whose text already carries its minus sign is shown
   * with two minus signs: the sign character is put in front of the raw text.
   */
  lemma NegativeTextShowsTwoMinusSigns(price: string, c: Change)
    requires c.sign == Negative && c.text != [] && c.text[0] == '-'
    ensures Status(price, c)[|price| + 3..|price| + 5] == "--"
  {
    assert Status(price, c) == "$" + price + " (" + "-" + c.text + "%)";
  }

  /** The `price` reply holds a line break exactly when the change is neither above nor below zero. */
  lemma PriceReplyLineBreakIff(price: string, c: Change)
    requires '\n' !in price && '\n' !in c.text
    ensures '\n' in PriceReply(price, c) <==> c.sign == Neither
  {
    var tail := PriceReplyBody(price, c);
    assert '\n' !in tail by {
      assert '\n' !in SignMark(c.sign);
    }
    assert '\n' !in ReplyLabel;
    if c.sign == Neither {
      assert PriceReply(price, c)[|ReplyLabel|] == '\n';
    } else {
      assert PriceReply(price, c) == ReplyLabel + tail;
    }
  }

  /** Changes of 3.5, -2.1 and 0 as the feed sends them; the negative one shows the doubled minus sign. */
  lemma StatusExamples(price: string)
    ensures Status(price, Change("3.5", Positive)) == "$" + price + " (+3.5%)"
    ensures Status(price, Change("-2.1", Negative)) == "$" + price + " (--2.1%)"
    ensures Status(price, Change("0", Neither)) == "$" + price + " (0%)"
    ensures PriceReply(price, Change("0", Neither)) == "Current price: \n**$" + price + "** (*0%*)"
  {
  }
}
