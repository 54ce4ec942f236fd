/**
  The reply serialiser of `sendReply`: the MIME text of the automatic reply and the `raw`
  payload handed to `messages.send`. Lines end in a bare LF, as the source writes them.
 */
module Reply {
  import opened Wrappers
  import opened Seqs
  import opened Messages
  import opened Address
  import opened Base64
  import Utf8

  const Subject: string := "Automatic Reply"

  /** The encoded-word the subject header carries: the standard base64 of `Automatic Reply`. */
  const EncodedWord: string := "=?utf-8?B?QXV0b21hdGljIFJlcGx5?="

  /** The six lines of `messageParts`. */
  const BodyLines: seq<string> := [
    "Hello,",
    "",
    // one line of the source, written in three pieces to keep the verifier's reasoning about it small
    "Thank you for your email. " + "I am currently on vacation and will not " + "be able to respond until my return.",
    "",
    "Best regards,",
    "Pratish Ninawe"
  ]

  /** `emailContent`: the body lines joined by `\n`. */
  function Body(): string {
    Join(BodyLines, '\n')
  }

  /**
    `utf8Subject`: an RFC 2047 "B" encoded-word of the subject. The template literal closes on
    the following source line, so the word is followed by a newline of its own. `MimeText`
    uses the value of this expression, `EncodedWord` and that newline, and `SubjectWord` proves
    the two equal; the folded form keeps the base64 computation out of every proof about a reply.
   */
  function EncodedSubject(): string {
    "=?utf-8?B?" + EncodeStd(Utf8.Encode(Subject)) + "?=\n"
  }

  /** The three fixed header lines of `message`, without their LF. */
  const ContentType: string := "Content-Type: text/plain; charset=\"UTF-8\""
  const MimeVersion: string := "MIME-Version: 1.0"
  const TransferEncoding: string := "Content-Transfer-Encoding: 7bit"

  /**
    `message`: three fixed header lines, the `to:` and `subject:` lines and the body, joined with
    nothing between them.
   */
  function MimeText(to: string): string {
    Concat([
      ContentType + "\n",
      MimeVersion + "\n",
      TransferEncoding + "\n",
      "to: " + to + "\n",
      "subject: " + (EncodedWord + "\n") + "\n\n",
      Body()
    ])
  }

  /** `encodedMessage`: the `raw` field of the send request for a reply to `email`. */
  function RawReply(email: Message): string {
    EncodeRaw(Utf8.Encode(MimeText(GetEmailAddress(email))))
  }

  /** The lines of the reply as a reader splitting on LF sees them. */
  function ReplyLines(to: string): seq<string> {
    [ContentType, MimeVersion, TransferEncoding, "to: " + to] +
    (["subject: " + EncodedWord, "", ""] + BodyLines)
  }

  /** An ASCII text is encoded as the list of its character codes. */
  lemma AsciiCodes(s: string, codes: seq<Byte>)
    requires |s| == |codes| && forall k :: 0 <= k < |s| ==> s[k] as int == codes[k] < 0x80
    ensures Utf8.Encode(s) == codes
  {
    Utf8.EncodeAscii(s);
  }

  /** The bytes of the subject, one per ASCII character. */
  lemma SubjectBytes()
    ensures Utf8.Encode(Subject) == [65, 117, 116, 111, 109, 97, 116, 105, 99, 32, 82, 101, 112, 108, 121]
  {
    var codes: seq<Byte> := [65, 117, 116, 111, 109, 97, 116, 105, 99, 32, 82, 101, 112, 108, 121];
    AsciiCodes(Subject, codes);
  }

  /**
    The standard base64 of the subject's bytes. This lemma and the ones below it receive their
    literal as a parameter required to equal it: stated on the literal itself, the verifier would
    evaluate the encoders on it outright, which costs far more than the proof.
   */
  lemma SubjectBase64(b: seq<Byte>)
    requires b == [65, 117, 116, 111, 109, 97, 116, 105, 99, 32, 82, 101, 112, 108, 121]
    ensures EncodeStd(b) == "QXV0b21hdGljIFJlcGx5"
  {
    SubjectSextets(b);
    SubjectDigits(Sextets(b));
    assert Padding(|b|) == "";
  }

  /** The fifteen bytes form five whole quanta of four sextets each. */
  lemma SubjectSextets(b: seq<Byte>)
    requires b == [65, 117, 116, 111, 109, 97, 116, 105, 99, 32, 82, 101, 112, 108, 121]
    ensures Sextets(b) == [16, 23, 21, 52, 27, 54, 53, 33, 29, 6, 37, 35, 8, 5, 9, 37, 28, 6, 49, 57]
  {
    SubjectTailSextets(b[9..]);
    SextetsPrepend(b[6..], [29, 6, 37, 35], [8, 5, 9, 37, 28, 6, 49, 57]);
    SextetsPrepend(b[3..], [27, 54, 53, 33], [29, 6, 37, 35, 8, 5, 9, 37, 28, 6, 49, 57]);
    SextetsPrepend(b, [16, 23, 21, 52], [27, 54, 53, 33, 29, 6, 37, 35, 8, 5, 9, 37, 28, 6, 49, 57]);
  }

  /** The last two quanta of the subject, ` Reply`. */
  lemma SubjectTailSextets(t: seq<Byte>)
    requires t == [32, 82, 101, 112, 108, 121]
    ensures Sextets(t) == [8, 5, 9, 37, 28, 6, 49, 57]
  {
    assert t[3..][3..] == [];
    SextetsPrepend(t[3..], [28, 6, 49, 57], []);
    SextetsPrepend(t, [8, 5, 9, 37], [28, 6, 49, 57]);
  }

  /** One quantum at a time: the sextets of the first three bytes, then those of the rest. */
  lemma SextetsPrepend(b: seq<Byte>, g: seq<Sextet>, rest: seq<Sextet>)
    requires |b| >= 3 && Group(b[0], b[1], b[2]) == g && Sextets(b[3..]) == rest
    ensures Sextets(b) == g + rest
  {
    SextetsStep(b);
  }

  /** The digits of those sextets in the standard alphabet. */
  lemma SubjectDigits(x: seq<Sextet>)
    requires x == [16, 23, 21, 52, 27, 54, 53, 33, 29, 6, 37, 35, 8, 5, 9, 37, 28, 6, 49, 57]
    ensures Digits(x, false) == "QXV0b21hdGljIFJlcGx5"
  {
  }

  /** The encoded-word carries `QXV0b21hdGljIFJlcGx5`, the standard base64 of `Automatic Reply`. */
  lemma SubjectWord()
    ensures EncodedSubject() == EncodedWord + "\n"
  {
    SubjectWordOf(Subject);
  }

  lemma SubjectWordOf(subject: string)
    requires subject == Subject
    ensures "=?utf-8?B?" + EncodeStd(Utf8.Encode(subject)) + "?=\n" == EncodedWord + "\n"
  {
    var codes: seq<Byte> := [65, 117, 116, 111, 109, 97, 116, 105, 99, 32, 82, 101, 112, 108, 121];
    AsciiCodes(subject, codes);
    SubjectBase64(Utf8.Encode(subject));
    WrapWord(EncodeStd(Utf8.Encode(subject)));
  }

  lemma WrapWord(w: string)
    requires w == "QXV0b21hdGljIFJlcGx5"
    ensures "=?utf-8?B?" + w + "?=\n" == EncodedWord + "\n"
  {
  }

  /** A reader decoding the encoded-word (base64, then UTF-8) recovers the subject exactly. */
  lemma SubjectDecodes()
    ensures Decode(EncodeStd(Utf8.Encode(Subject)), false) == Some(Utf8.Encode(Subject))
    ensures Utf8.Decode(Utf8.Encode(Subject)) == Some(Subject)
  {
    DecodeStd(Utf8.Encode(Subject));
    Utf8.DecodeEncode(Subject);
  }

  /** Six pieces joined with nothing between them. */
  lemma ConcatSix(p0: string, p1: string, p2: string, p3: string, p4: string, p5: string)
    ensures Concat([p0, p1, p2, p3, p4, p5]) == p0 + (p1 + (p2 + (p3 + (p4 + p5))))
  {
    var p := [p0, p1, p2, p3, p4, p5];
    ConcatCons(p5, []);
    assert p[5..] == [p5];
    ConcatCons(p4, p[5..]);
    assert p[4..] == [p4] + p[5..];
    ConcatCons(p3, p[4..]);
    assert p[3..] == [p3] + p[4..];
    ConcatCons(p2, p[3..]);
    assert p[2..] == [p2] + p[3..];
    ConcatCons(p1, p[2..]);
    assert p[1..] == [p1] + p[2..];
    ConcatCons(p0, p[1..]);
    assert p == [p0] + p[1..];
  }

  /** Concatenating pieces puts the first in front of the rest. */
  lemma ConcatCons(p: string, rest: seq<string>)
    ensures Concat([p] + rest) == p + Concat(rest)
  {
    assert ([p] + rest)[1..] == rest;
  }

  /**
    No line of the body holds an LF. Here and for the header lines below, each long literal has a
    lemma of its own: checked together, literals cost the verifier far more than one by one.
   */
  lemma BodyLinesLackLF()
    ensures forall i :: 0 <= i < |BodyLines| ==> '\n' !in BodyLines[i]
  {
    LongLineLacksLF();
    ShortLinesLackLF();
  }

  lemma ShortLinesLackLF()
    ensures '\n' !in "Hello," && '\n' !in "Best regards," && '\n' !in "Pratish Ninawe"
  {
  }

  /** The long body line, piece by piece. */
  lemma LongLineLacksLF()
    ensures '\n' !in "Thank you for your email. " + "I am currently on vacation and will not " + "be able to respond until my return."
  {
    ThanksLacksLF();
    VacationLacksLF();
    ReturnLacksLF();
    TwoLack("Thank you for your email. ", "I am currently on vacation and will not ", '\n');
    TwoLack("Thank you for your email. " + "I am currently on vacation and will not ", "be able to respond until my return.", '\n');
  }

  lemma ThanksLacksLF()
    ensures '\n' !in "Thank you for your email. "
  {
  }

  lemma VacationLacksLF()
    ensures '\n' !in "I am currently on vacation and will not "
  {
  }

  lemma ReturnLacksLF()
    ensures '\n' !in "be able to respond until my return."
  {
  }

  /** A character neither of two texts holds is not in their concatenation. */
  lemma TwoLack(a: string, b: string, ch: char)
    requires ch !in a && ch !in b
    ensures ch !in a + b
  {
    assert forall k :: 0 <= k < |a + b| ==> (a + b)[k] in a || (a + b)[k] in b;
  }

  /** The header lines of the template hold no LF (one lemma per long literal). */
  lemma ContentTypeLacksLF()
    ensures '\n' !in ContentType
  {
  }

  lemma SubjectLineLacksLF()
    ensures '\n' !in "subject: " + EncodedWord
  {
    WordLacksLF();
    TwoLack("subject: ", EncodedWord, '\n');
  }

  lemma WordLacksLF()
    ensures '\n' !in EncodedWord
  {
  }

  lemma ShortHeadersLackLF()
    ensures '\n' !in MimeVersion
    ensures '\n' !in TransferEncoding
    ensures '\n' !in "to: "
  {
  }

  /** The body splits into its six lines. */
  lemma BodySplits()
    ensures Split(Body(), '\n') == BodyLines
  {
    BodyLinesLackLF();
    SplitJoin(BodyLines, '\n');
  }

  /** A line followed by three LFs: that line and two empty ones. */
  lemma SplitLineAndTwoBlanks(piece: string, line: string, rest: string)
    requires piece == line + "\n\n\n" && '\n' !in line
    ensures Split(piece + rest, '\n') == [line, "", ""] + Split(rest, '\n')
  {
    assert piece + rest == (line + "\n") + ("\n" + ("\n" + rest));
    SplitLine(line + "\n", line, '\n', "\n" + ("\n" + rest));
    SplitLine("\n", "", '\n', "\n" + rest);
    SplitLine("\n", "", '\n', rest);
  }

  /** The `subject:` piece, the word's own LF and the two after it: the subject line and two empty lines. */
  lemma SubjectSplits(rest: string)
    ensures Split(("subject: " + (EncodedWord + "\n") + "\n\n") + rest, '\n') ==
      ["subject: " + EncodedWord, "", ""] + Split(rest, '\n')
  {
    SubjectLineLacksLF();
    LineBreaks("subject: ", EncodedWord);
    SplitLineAndTwoBlanks("subject: " + (EncodedWord + "\n") + "\n\n", "subject: " + EncodedWord, rest);
  }

  /** A word with its own LF, then two more: the line followed by three LFs. */
  lemma LineBreaks(a: string, w: string)
    ensures a + (w + "\n") + "\n\n" == (a + w) + "\n\n\n"
  {
  }

  /**
    Split on LF, the reply is the three fixed header lines, `to: ` and the address, the
    `subject:` line with the encoded-word, two empty lines (three LFs after the word) and the six
    body lines ending in the signature; provided the address holds no LF.
   */
  lemma MimeLines(to: string)
    requires '\n' !in to
    ensures Split(MimeText(to), '\n') == ReplyLines(to)
  {
    var subject := "subject: " + (EncodedWord + "\n") + "\n\n";
    var tail := ["subject: " + EncodedWord, "", ""] + BodyLines;
    assert Split(subject + Body(), '\n') == tail by {
      BodySplits();
      SubjectSplits(Body());
    }
    var l0, l1, l2, l3 := ContentType + "\n", MimeVersion + "\n", TransferEncoding + "\n", "to: " + to + "\n";
    assert MimeText(to) == l0 + (l1 + (l2 + (l3 + (subject + Body())))) by {
      ConcatSix(l0, l1, l2, l3, subject, Body());
    }
    assert Split(MimeText(to), '\n') == [ContentType, MimeVersion, TransferEncoding, "to: " + to] + tail by {
      ContentTypeLacksLF();
      ShortHeadersLackLF();
      assert l3 == ("to: " + to) + "\n";
      SplitFourLines(ContentType, MimeVersion, TransferEncoding, "to: " + to, subject + Body());
    }
  }

  /** The reply has thirteen lines; the fourth names the recipient and the last is the signature. */
  lemma ReplyLinesShape(to: string)
    ensures |ReplyLines(to)| == 13 && ReplyLines(to)[3] == "to: " + to
    ensures ReplyLines(to)[12] == "Pratish Ninawe"
  {
  }

  /** Four LF-free lines, each followed by its LF, split back into those lines. */
  lemma SplitFourLines(l0: string, l1: string, l2: string, l3: string, rest: string)
    requires '\n' !in l0 && '\n' !in l1 && '\n' !in l2 && '\n' !in l3
    ensures Split((l0 + "\n") + ((l1 + "\n") + ((l2 + "\n") + ((l3 + "\n") + rest))), '\n') ==
      [l0, l1, l2, l3] + Split(rest, '\n')
  {
    var r3 := (l3 + "\n") + rest;
    var r2 := (l2 + "\n") + r3;
    var r1 := (l1 + "\n") + r2;
    SplitLine(l3 + "\n", l3, '\n', rest);
    SplitLine(l2 + "\n", l2, '\n', r3);
    SplitLine(l1 + "\n", l1, '\n', r2);
    SplitLine(l0 + "\n", l0, '\n', r1);
  }
  /**
    The `raw` payload reads back: restoring its padding and decoding it with the URL-safe
    alphabet gives UTF-8 bytes, those decode to text, and that text splits into the reply's lines
    with the sender's address on the `to:` line; provided the address holds no LF.
   */
  lemma RawReplyReadsBack(email: Message)
    requires '\n' !in GetEmailAddress(email)
    ensures var bytes := Base64.Decode(Repad(RawReply(email)), true);
      bytes.Some? && Utf8.Decode(bytes.value).Some? &&
      Split(Utf8.Decode(bytes.value).value, '\n') == ReplyLines(GetEmailAddress(email))
  {
    var text := MimeText(GetEmailAddress(email));
    RawRoundTrip(Utf8.Encode(text));
    Utf8.DecodeEncode(text);
    MimeLines(GetEmailAddress(email));
  }

  /** The `raw` payload uses only the URL-safe alphabet, carries no padding and has the unpadded length. */
  lemma RawReplyShape(email: Message)
    ensures var raw := RawReply(email); var n := |Utf8.Encode(MimeText(GetEmailAddress(email)))|;
      (forall k :: 0 <= k < |raw| ==> IsDigit(raw[k], true)) && '=' !in raw &&
      |raw| == 4 * (n / 3) + (if n % 3 == 0 then 0 else n % 3 + 1)
  {
    RawShape(Utf8.Encode(MimeText(GetEmailAddress(email))));
  }
}
