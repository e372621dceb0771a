/** Splitting a long Telegram text into numbered parts (app/telegram_messages.py). The text is the one
    that normalization returns. */
module MessageSplit {
  import opened Common

  const HEADER_RESERVE := 32

  datatype SplitResult = Parts(parts: seq<string>) | LimitTooSmall

  // ---------- decimal numerals ----------

  function Digit(n: nat): char
    requires n < 10
  {
    "0123456789"[n]
  }

  function Decimal(n: nat): (s: string)
    ensures s != "" && '\n' !in s
  {
    if n < 10 then [Digit(n)] else Decimal(n / 10) + [Digit(n % 10)]
  }

  function Power10(d: nat): nat {
    if d == 0 then 1 else 10 * Power10(d - 1)
  }

  lemma {:induction false} DecimalLength(n: nat, d: nat)
    requires d > 0 && n < Power10(d)
    ensures |Decimal(n)| <= d
  {
    if n >= 10 {
      assert Power10(d) == 10 * Power10(d - 1);
      DecimalLength(n / 10, d - 1);
    }
  }

  // ---------- where to cut ----------

  predicate Occurs(text: string, sep: string, i: int) {
    0 <= i && i + |sep| <= |text| && text[i..i + |sep|] == sep
  }

  /** `text.rfind(sep, 0, end)`: the last occurrence that ends by `end`, or -1. */
  function RFind(text: string, sep: string, end: nat): (i: int)
    requires sep != "" && end <= |text|
    ensures i == -1 || (Occurs(text, sep, i) && i + |sep| <= end)
    ensures forall j :: i < j && j + |sep| <= end ==> !Occurs(text, sep, j)
    decreases end
  {
    if end < |sep| then -1
    else if text[end - |sep|..end] == sep then end - |sep|
    else RFind(text, sep, end - 1)
  }

  const SEPARATORS: seq<string> := ["\n\n", "\n", " "]

  /** A cut right after the last usable occurrence of the separator. */
  predicate CutsAfter(text: string, limit: nat, sep: string, cut: nat) {
    cut >= |sep| && Occurs(text, sep, cut - |sep|) && 0 < cut - |sep| && cut <= limit + 1 &&
    forall j :: cut - |sep| < j && j + |sep| <= limit + 1 ==> !Occurs(text, sep, j)
  }

  /** No occurrence of the separator is usable: none after the first character ends by limit + 1. */
  predicate NoCutAfter(text: string, limit: nat, sep: string) {
    forall j :: 0 < j && j + |sep| <= limit + 1 ==> !Occurs(text, sep, j)
  }

  /** Where a text longer than the limit is cut: after a blank line, else after a line break, else after a space,
      else hard. */
  ghost predicate IsPreferredCut(text: string, limit: nat, cut: nat) {
    if !NoCutAfter(text, limit, "\n\n") then CutsAfter(text, limit, "\n\n", cut)
    else if !NoCutAfter(text, limit, "\n") then CutsAfter(text, limit, "\n", cut)
    else if !NoCutAfter(text, limit, " ") then CutsAfter(text, limit, " ", cut)
    else cut == limit
  }

  lemma UsableCut(text: string, limit: nat, sep: string, cut: nat)
    requires CutsAfter(text, limit, sep, cut)
    ensures !NoCutAfter(text, limit, sep)
  {
  }

  lemma CutIsPreferred(text: string, limit: nat, k: nat, cut: nat)
    requires k < |SEPARATORS| && CutsAfter(text, limit, SEPARATORS[k], cut)
    requires forall l :: 0 <= l < k ==> NoCutAfter(text, limit, SEPARATORS[l])
    ensures IsPreferredCut(text, limit, cut)
  {
    UsableCut(text, limit, SEPARATORS[k], cut);
    assert SEPARATORS[0] == "\n\n" && SEPARATORS[1] == "\n" && SEPARATORS[2] == " ";
    hide CutsAfter, NoCutAfter;
  }

  lemma HardCutIsPreferred(text: string, limit: nat)
    requires forall l :: 0 <= l < |SEPARATORS| ==> NoCutAfter(text, limit, SEPARATORS[l])
    ensures IsPreferredCut(text, limit, limit)
  {
    hide CutsAfter, NoCutAfter;
    assert SEPARATORS[0] == "\n\n" && SEPARATORS[1] == "\n" && SEPARATORS[2] == " ";
  }

  method PreferredCut(text: string, limit: nat) returns (cut: nat)
    requires 0 < limit < |text|
    ensures 0 < cut <= limit + 1 && IsPreferredCut(text, limit, cut)
  {
    hide IsPreferredCut;
    for k := 0 to |SEPARATORS|
      invariant forall l :: 0 <= l < k ==> NoCutAfter(text, limit, SEPARATORS[l])
    {
      var index := RFind(text, SEPARATORS[k], limit + 1);
      if index > 0 {
        cut := index + |SEPARATORS[k]|;
        assert CutsAfter(text, limit, SEPARATORS[k], cut);
        CutIsPreferred(text, limit, k, cut);
        return;
      }
    }
    HardCutIsPreferred(text, limit);
    cut := limit;
  }

  // ---------- splitting ----------

  function Concat(parts: seq<string>): string {
    if parts == [] then "" else Concat(parts[..|parts| - 1]) + parts[|parts| - 1]
  }

  function Header(index: nat, count: nat): string {
    "Parte " + Decimal(index) + "/" + Decimal(count) + "\n\n"
  }

  function Numbered(raw: seq<string>): seq<string> {
    seq(|raw|, i requires 0 <= i < |raw| => Header(i + 1, |raw|) + raw[i])
  }

  /** What a reader gets by dropping everything up to the first blank line. */
  function Payload(part: string): string {
    if |part| < 2 then part
    else if part[..2] == "\n\n" then part[2..]
    else Payload(part[1..])
  }

  function Payloads(parts: seq<string>): seq<string> {
    seq(|parts|, i requires 0 <= i < |parts| => Payload(parts[i]))
  }

  lemma {:induction false} PayloadSkipsLine(line: string, rest: string)
    requires '\n' !in line
    ensures Payload(line + "\n\n" + rest) == rest
  {
    var part := line + "\n\n" + rest;
    if line == "" {
      assert part[..2] == "\n\n" && part[2..] == rest;
    } else {
      assert part[0] == line[0] && part[..2][0] == line[0];
      assert part[1..] == line[1..] + "\n\n" + rest;
      PayloadSkipsLine(line[1..], rest);
    }
  }

  lemma PayloadOfNumbered(index: nat, count: nat, raw: string)
    ensures Payload(Header(index, count) + raw) == raw
  {
    var line := "Parte " + Decimal(index) + "/" + Decimal(count);
    assert Header(index, count) + raw == line + "\n\n" + raw;
    PayloadSkipsLine(line, raw);
  }

  /** Pieces of a text that are not empty and, with a header in front, fit the limit. */
  ghost predicate GoodPieces(raw: seq<string>, text: string, payloadLimit: nat) {
    Concat(raw) == text && forall i :: 0 <= i < |raw| ==> 0 < |raw[i]| <= payloadLimit + 1
  }

  lemma {:induction false} PiecesAreFew(raw: seq<string>)
    requires forall i :: 0 <= i < |raw| ==> raw[i] != ""
    ensures |raw| <= |Concat(raw)|
  {
    if raw != [] {
      PiecesAreFew(raw[..|raw| - 1]);
    }
  }

  lemma HeaderFits(index: nat, count: nat)
    requires index <= count < Power10(11)
    ensures |Header(index, count)| < HEADER_RESERVE
  {
    DecimalLength(index, 11);
    DecimalLength(count, 11);
  }

  lemma OneMorePiece(raw: seq<string>, done: string, piece: string, payloadLimit: nat)
    requires GoodPieces(raw, done, payloadLimit) && 0 < |piece| <= payloadLimit + 1
    ensures GoodPieces(raw + [piece], done + piece, payloadLimit)
  {
    assert (raw + [piece])[..|raw|] == raw;
  }

  /** What piece number i was cut from. */
  function RestAt(raw: seq<string>, text: string, i: nat): string
    requires i <= |raw|
  {
    if |Concat(raw[..i])| <= |text| then text[|Concat(raw[..i])|..] else ""
  }

  /** Each piece ends where the rest of the text is preferably cut; the last one is all that fits. */
  ghost predicate CutsArePreferred(raw: seq<string>, text: string, payloadLimit: nat) {
    forall i :: 0 <= i < |raw| ==>
      var rest := RestAt(raw, text, i);
      if |rest| <= payloadLimit then raw[i] == rest && i == |raw| - 1
      else |raw[i]| <= |rest| && raw[i] == rest[..|raw[i]|] && IsPreferredCut(rest, payloadLimit, |raw[i]|)
  }

  /** The loop has cut these pieces off the text and has the rest in hand. */
  ghost predicate Cutting(raw: seq<string>, text: string, remaining: string, payloadLimit: nat) {
    text == Concat(raw) + remaining && GoodPieces(raw, Concat(raw), payloadLimit) &&
    forall i :: 0 <= i < |raw| ==>
      var rest := RestAt(raw, text, i);
      |raw[i]| <= |rest| && raw[i] == rest[..|raw[i]|] && |rest| > payloadLimit &&
      IsPreferredCut(rest, payloadLimit, |raw[i]|)
  }

  lemma NothingCut(text: string, payloadLimit: nat)
    ensures Cutting([], text, text, payloadLimit)
  {
  }

  lemma RestsStay(raw: seq<string>, text: string, remaining: string, piece: string)
    requires text == Concat(raw) + remaining
    ensures Concat(raw + [piece]) == Concat(raw) + piece && RestAt(raw + [piece], text, |raw|) == remaining
    ensures forall i :: 0 <= i < |raw| ==> RestAt(raw + [piece], text, i) == RestAt(raw, text, i)
  {
    var all := raw + [piece];
    assert all[..|raw|] == raw;
    forall i | 0 <= i < |raw| ensures RestAt(all, text, i) == RestAt(raw, text, i) {
      assert all[..i] == raw[..i];
    }
  }

  lemma CutOneMore(raw: seq<string>, text: string, remaining: string, payloadLimit: nat, cut: nat)
    requires Cutting(raw, text, remaining, payloadLimit) && payloadLimit < |remaining|
    requires 0 < cut <= payloadLimit + 1 && IsPreferredCut(remaining, payloadLimit, cut)
    ensures Cutting(raw + [remaining[..cut]], text, remaining[cut..], payloadLimit)
  {
    hide IsPreferredCut, RestAt, Concat;
    RestsStay(raw, text, remaining, remaining[..cut]);
    OneMorePiece(raw, Concat(raw), remaining[..cut], payloadLimit);
    assert remaining == remaining[..cut] + remaining[cut..];
  }

  lemma CutLast(raw: seq<string>, text: string, remaining: string, payloadLimit: nat)
    requires Cutting(raw, text, remaining, payloadLimit) && 0 < |remaining| <= payloadLimit
    ensures GoodPieces(raw + [remaining], text, payloadLimit)
    ensures CutsArePreferred(raw + [remaining], text, payloadLimit)
  {
    hide IsPreferredCut, RestAt, Concat;
    RestsStay(raw, text, remaining, remaining);
    OneMorePiece(raw, Concat(raw), remaining, payloadLimit);
  }

  lemma AllCut(raw: seq<string>, text: string, payloadLimit: nat)
    requires Cutting(raw, text, "", payloadLimit)
    ensures GoodPieces(raw, text, payloadLimit) && CutsArePreferred(raw, text, payloadLimit)
  {
    hide IsPreferredCut, RestAt, Concat;
  }

  /** The cutting loop. */
  method CutPieces(text: string, payloadLimit: nat) returns (raw: seq<string>)
    requires 0 < payloadLimit && payloadLimit + 1 < |text|
    ensures GoodPieces(raw, text, payloadLimit) && |raw| > 1 && CutsArePreferred(raw, text, payloadLimit)
  {
    hide GoodPieces, Cutting, CutsArePreferred, IsPreferredCut;
    raw := [];
    var remaining := text;
    NothingCut(text, payloadLimit);
    while remaining != ""
      invariant Cutting(raw, text, remaining, payloadLimit)
      invariant raw == [] ==> remaining == text
      invariant |raw| == 1 ==> remaining != ""
      decreases |remaining|
    {
      if |remaining| <= payloadLimit {
        CutLast(raw, text, remaining, payloadLimit);
        raw := raw + [remaining];
        return;
      }
      var cut := PreferredCut(remaining, payloadLimit);
      CutOneMore(raw, text, remaining, payloadLimit, cut);
      raw := raw + [remaining[..cut]];
      remaining := remaining[cut..];
    }
    AllCut(raw, text, payloadLimit);
  }

  lemma {:induction false} NumberedParts(raw: seq<string>, text: string, limit: nat)
    requires limit > HEADER_RESERVE && GoodPieces(raw, text, limit - HEADER_RESERVE) && |raw| > 1
    ensures
      var parts := Numbered(raw);
      parts != [text] && Payloads(parts) == raw && Concat(Payloads(parts)) == text &&
      (forall i :: 0 <= i < |parts| ==>
         Payload(parts[i]) != "" && parts[i] == Header(i + 1, |parts|) + Payload(parts[i])) &&
      (|text| < Power10(11) ==> forall i :: 0 <= i < |parts| ==> |parts[i]| <= limit)
  {
    hide Header, Payload, Power10, Concat;
    var parts := Numbered(raw);
    forall i | 0 <= i < |raw| ensures Payload(parts[i]) == raw[i] {
      PayloadOfNumbered(i + 1, |raw|, raw[i]);
    }
    PiecesAreFew(raw);
    if |text| < Power10(11) {
      forall i | 0 <= i < |parts| ensures |parts[i]| <= limit {
        HeaderFits(i + 1, |raw|);
      }
    }
  }

  /** A number in front of a part reads back as that number. */
  function ValueOf(numeral: string): int {
    if numeral == "" then 0
    else 10 * ValueOf(numeral[..|numeral| - 1]) + (numeral[|numeral| - 1] as int - '0' as int)
  }

  lemma DigitReads(n: nat)
    requires n < 10
    ensures Digit(n) as int - '0' as int == n
  {
  }

  lemma {:induction false} DecimalReads(n: nat)
    ensures ValueOf(Decimal(n)) == n
  {
    DigitReads(n % 10);
    if n >= 10 {
      DecimalReads(n / 10);
      var numeral := Decimal(n);
      assert numeral[..|numeral| - 1] == Decimal(n / 10);
    } else {
      assert Decimal(n)[..0] == "";
    }
  }

  /** Part number i of so many, with its header in front. */
  ghost predicate IsPart(part: string, i: nat, count: nat) {
    exists index, total ::
      ValueOf(index) == i && ValueOf(total) == count &&
      part == "Parte " + index + "/" + total + "\n\n" + Payload(part)
  }

  lemma HeadedIsPart(part: string, i: nat, count: nat)
    requires part == Header(i, count) + Payload(part)
    ensures IsPart(part, i, count)
  {
    hide Payload, Decimal, ValueOf;
    DecimalReads(i);
    DecimalReads(count);
    assert part == "Parte " + Decimal(i) + "/" + Decimal(count) + "\n\n" + Payload(part);
  }

  lemma PartsAreHeaded(parts: seq<string>)
    requires forall i :: 0 <= i < |parts| ==> parts[i] == Header(i + 1, |parts|) + Payload(parts[i])
    ensures forall i :: 0 <= i < |parts| ==> IsPart(parts[i], i + 1, |parts|)
  {
    hide Header, Payload, IsPart;
    forall i | 0 <= i < |parts| ensures IsPart(parts[i], i + 1, |parts|) {
      HeadedIsPart(parts[i], i + 1, |parts|);
    }
  }

  /** The split. A long text is cut where it is preferably cut, into at least two non-empty parts, numbered in
      order; dropping each header gives the text back, and every part fits the limit. */
  method Split(text: string, limit: int) returns (r: SplitResult)
    ensures |text| <= limit || text == "" <==> r == Parts([text])
    ensures r.LimitTooSmall? <==> text != "" && |text| > limit && limit <= 32
    ensures r.Parts? && r.parts != [text] ==>
      |r.parts| > 1 && Concat(Payloads(r.parts)) == text && limit > 32 &&
      CutsArePreferred(Payloads(r.parts), text, limit - 32) &&
      (forall i :: 0 <= i < |r.parts| ==> Payload(r.parts[i]) != "" && IsPart(r.parts[i], i + 1, |r.parts|)) &&
      (|text| < Power10(11) ==> forall i :: 0 <= i < |r.parts| ==> |r.parts[i]| <= limit)
  {
    hide GoodPieces, CutsArePreferred, Payload, Header, Concat, Power10, Payloads, Numbered, IsPart;
    if text == "" || |text| <= limit {
      return Parts([text]);
    }
    if limit <= HEADER_RESERVE {
      return LimitTooSmall;
    }
    var raw := CutPieces(text, limit - HEADER_RESERVE);
    NumberedParts(raw, text, limit);
    PartsAreHeaded(Numbered(raw));
    assert |Numbered(raw)| > 1 by {
      NumberedSize(raw);
    }
    return Parts(Numbered(raw));
  }

  lemma NumberedSize(raw: seq<string>)
    ensures |Numbered(raw)| == |raw|
  {
  }
}
