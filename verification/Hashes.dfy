/** Content hashes reach the index in several spellings: hexadecimal in either case, and
    base64 in two alphabets, padded or not. This brings them to lowercase hexadecimal
    (section 8 of RFC 4648) and compares them. */
module Hashes {
  import opened Types
  import opened Base64

  // --------------------------------------------------------------------- trimming

  /** Unicode white space. */
  predicate IsSpace(c: char) {
    var u := c as int;
    9 <= u <= 13 || u == 0x20 || u == 0x85 || u == 0xA0 || u == 0x1680 || 0x2000 <= u <= 0x200A
    || u == 0x2028 || u == 0x2029 || u == 0x202F || u == 0x205F || u == 0x3000
  }

  /** All 25 of them. */
  lemma SpacesSpelled(c: char)
    ensures IsSpace(c) <==>
      c in "\t\n\U{B}\U{C}\r \U{85}\U{A0}\U{1680}\U{2028}\U{2029}\U{202F}\U{205F}\U{3000}"
      || c in "\U{2000}\U{2001}\U{2002}\U{2003}\U{2004}\U{2005}\U{2006}\U{2007}\U{2008}\U{2009}\U{200A}"
  {
  }

  function TrimStart(s: string): string {
    if s != "" && IsSpace(s[0]) then TrimStart(s[1..]) else s
  }

  function TrimEnd(s: string): string {
    if s != "" && IsSpace(s[|s| - 1]) then TrimEnd(s[..|s| - 1]) else s
  }

  function Trim(s: string): string { TrimEnd(TrimStart(s)) }

  predicate AllSpace(s: string) { forall i :: 0 <= i < |s| ==> IsSpace(s[i]) }

  /** No white space at either end. */
  predicate Tight(t: string) { t != "" && !IsSpace(t[0]) && !IsSpace(t[|t| - 1]) }

  /** Trimming undoes surrounding with white space. */
  lemma {:induction false} TrimSurrounded(before: string, t: string, after: string)
    requires Tight(t) && AllSpace(before) && AllSpace(after)
    ensures Trim(before + t + after) == t
    decreases |before| + |after|
  {
    if before != "" {
      assert (before + t + after)[1..] == before[1..] + t + after;
      TrimSurrounded(before[1..], t, after);
    } else if after != "" {
      assert before + t + after == t + after;
      assert (t + after)[..|t + after| - 1] == t + after[..|after| - 1];
      assert before + t + after[..|after| - 1] == t + after[..|after| - 1];
      TrimSurrounded(before, t, after[..|after| - 1]);
    } else {
      assert before + t + after == t;
    }
  }

  // ------------------------------------------------------------------ hexadecimal

  function HexDigit(v: nat): char
    requires v < 16
  {
    if v < 10 then '0' + v as char else 'a' + (v - 10) as char
  }

  /** The value of a hexadecimal digit in either case, or -1. */
  function HexValue(c: char): (v: int)
    ensures -1 <= v < 16
  {
    if '0' <= c <= '9' then c as int - '0' as int
    else if 'a' <= c <= 'f' then c as int - 'a' as int + 10
    else if 'A' <= c <= 'F' then c as int - 'A' as int + 10
    else -1
  }

  function LowerChar(c: char): char {
    if 'A' <= c <= 'Z' then ((c as int) + 32) as char else c
  }

  function Lower(s: string): string { seq(|s|, i requires 0 <= i < |s| => LowerChar(s[i])) }

  /** Section 8 of RFC 4648: the sixteen digits, in either case, and no others. */
  lemma DigitsSpelled(v: nat, c: char)
    requires v < 16
    ensures HexDigit(v) == "0123456789abcdef"[v]
    ensures HexValue(c) == v <==> c == "0123456789abcdef"[v] || c == "0123456789ABCDEF"[v]
  {
    assert v in {0, 1, 2, 3, 4, 5, 6, 7, 8, 9, 10, 11, 12, 13, 14, 15};
  }

  lemma DigitFacts(c: char)
    ensures HexValue(c) >= 0 ==> LowerChar(c) == HexDigit(HexValue(c)) && !IsSpace(c) && c != '='
  {
  }

  lemma DigitValue(v: nat)
    requires v < 16
    ensures HexValue(HexDigit(v)) == v
  {
  }

  /** Lowercase hexadecimal, two digits a byte. */
  function Hex(b: Bytes): string {
    if b == [] then ""
    else Hex(b[..|b| - 1]) + [HexDigit(b[|b| - 1] / 16), HexDigit(b[|b| - 1] % 16)]
  }

  lemma {:induction false} HexAt(b: Bytes, i: nat)
    requires i < |b|
    ensures |Hex(b)| == 2 * |b|
    ensures Hex(b)[2 * i] == HexDigit(b[i] / 16) && Hex(b)[2 * i + 1] == HexDigit(b[i] % 16)
  {
    HexLength(b);
    HexLength(b[..|b| - 1]);
    if i < |b| - 1 { HexAt(b[..|b| - 1], i); }
  }

  lemma {:induction false} HexLength(b: Bytes)
    ensures |Hex(b)| == 2 * |b|
  {
    if b != [] { HexLength(b[..|b| - 1]); }
  }

  predicate HexLooking(t: string) {
    |t| % 2 == 0 && forall i :: 0 <= i < |t| ==> HexValue(t[i]) >= 0
  }

  /** `t` writes out the bytes `b` in hexadecimal, each digit in any case. */
  ghost predicate HexSpelling(t: string, b: Bytes) {
    |t| == 2 * |b| && forall i :: 0 <= i < |b| ==> HexPair(t, i, b[i])
  }

  predicate HexPair(t: string, i: nat, x: Byte)
    requires 2 * i + 1 < |t|
  {
    HexValue(t[2 * i]) >= 0 && HexValue(t[2 * i + 1]) >= 0 && HexValue(t[2 * i]) * 16 + HexValue(t[2 * i + 1]) == x
  }

  lemma HexLookingSpells(t: string)
    requires HexLooking(t)
    ensures exists b :: HexSpelling(t, b)
  {
    var b: Bytes := seq(|t| / 2, i requires 0 <= i < |t| / 2 => HexValue(t[2 * i]) * 16 + HexValue(t[2 * i + 1]));
    assert HexSpelling(t, b);
  }

  lemma SpellingLooksHex(t: string, b: Bytes)
    requires HexSpelling(t, b)
    ensures HexLooking(t)
  {
    forall k | 0 <= k < |t| ensures HexValue(t[k]) >= 0 {
      assert HexPair(t, k / 2, b[k / 2]);
      assert k == 2 * (k / 2) || k == 2 * (k / 2) + 1;
    }
  }

  /** Lowering the case of a spelling gives the one lowercase spelling. */
  lemma LowerIsHex(t: string, b: Bytes)
    requires HexSpelling(t, b)
    ensures Lower(t) == Hex(b)
  {
    HexLength(b);
    forall k | 0 <= k < |t| ensures Lower(t)[k] == Hex(b)[k] {
      LowerPair(t, b, k / 2);
      assert k == 2 * (k / 2) || k == 2 * (k / 2) + 1;
    }
  }

  lemma LowerPair(t: string, b: Bytes, i: nat)
    requires HexSpelling(t, b) && i < |b|
    ensures |Hex(b)| == |t| && LowerChar(t[2 * i]) == Hex(b)[2 * i] && LowerChar(t[2 * i + 1]) == Hex(b)[2 * i + 1]
  {
    assert HexPair(t, i, b[i]);
    HexAt(b, i);
    DigitFacts(t[2 * i]);
    DigitFacts(t[2 * i + 1]);
    PairValue(HexValue(t[2 * i]), HexValue(t[2 * i + 1]), b[i]);
  }

  lemma PairValue(h: nat, l: nat, x: Byte)
    requires h < 16 && l < 16 && h * 16 + l == x
    ensures x / 16 == h && x % 16 == l
  {
  }

  lemma HexSpellsItself(b: Bytes)
    ensures HexSpelling(Hex(b), b)
  {
    HexLength(b);
    forall i | 0 <= i < |b| ensures HexPair(Hex(b), i, b[i]) {
      HexAt(b, i);
      DigitValue(b[i] / 16);
      DigitValue(b[i] % 16);
    }
  }

  lemma HexInjective(b: Bytes, c: Bytes)
    requires Hex(b) == Hex(c)
    ensures b == c
  {
    HexSpellsItself(b);
    HexSpellsItself(c);
    assert |b| == |c|;
    forall i | 0 <= i < |b| ensures b[i] == c[i] {
      assert HexPair(Hex(b), i, b[i]) && HexPair(Hex(c), i, c[i]);
    }
  }

  // ------------------------------------------------------------------ normalising

  datatype Engine = Engine(al: Alphabet, padded: bool)

  /** In the order in which they are tried. */
  const ENGINES: seq<Engine> :=
    [Engine(Standard, true), Engine(UrlSafe, true), Engine(Standard, false), Engine(UrlSafe, false)]

  function FirstDecoding(engines: seq<Engine>, t: string): Option<Bytes> {
    if engines == [] then None
    else
      match Decode(engines[0].al, engines[0].padded, t)
      case Some(b) => Some(b)
      case None => FirstDecoding(engines[1..], t)
  }

  /** `hash_to_hex`. */
  function HashToHex(s: string): Option<string> {
    var t := Trim(s);
    if t == "" then None
    else if HexLooking(t) then Some(Lower(t))
    else
      match FirstDecoding(ENGINES, t)
      case Some(b) => Some(Hex(b))
      case None => None
  }

  /** `etag_matches_hashes`. */
  predicate EtagMatches(stored: string, hashes: map<string, string>) {
    match HashToHex(stored)
    case None => false
    case Some(h) => exists k :: k in hashes && HashToHex(hashes[k]) == Some(h)
  }

  // --------------------------------------------------- what a text denotes, on its own

  ghost predicate Base64Spelling(t: string, b: Bytes) {
    exists al, padded :: t == Encode(al, padded, b)
  }

  /** The bytes a text stands for. Text that can be read as hexadecimal is. */
  ghost predicate Denotes(s: string, b: Bytes) {
    var t := Trim(s);
    t != "" && (HexSpelling(t, b) || (!HexLooking(t) && Base64Spelling(t, b)))
  }

  /** The decoders together recognise exactly the base64 spellings. */
  lemma {:induction false} FirstDecodingExact(engines: seq<Engine>, t: string)
    ensures FirstDecoding(engines, t).Some? ==> Base64Spelling(t, FirstDecoding(engines, t).value)
    ensures forall e, b :: e in engines && t == Encode(e.al, e.padded, b) ==> FirstDecoding(engines, t) == Some(b)
  {
    if engines != [] {
      var e := engines[0];
      FirstDecodingExact(engines[1..], t);
      forall b ensures Decode(e.al, e.padded, t) == Some(b) <==> t == Encode(e.al, e.padded, b) {
        DecodesExactly(e.al, e.padded, t, b);
      }
      if Decode(e.al, e.padded, t).Some? {
        var b := Decode(e.al, e.padded, t).value;
        forall e': Engine, b' | t == Encode(e'.al, e'.padded, b') ensures b' == b {
          EnginesAgree(e.al, e.padded, b, e'.al, e'.padded, b');
        }
      }
      assert forall x :: x in engines ==> x == e || x in engines[1..];
    }
  }

  lemma DecodingIsSpelling(t: string, b: Bytes)
    ensures FirstDecoding(ENGINES, t) == Some(b) <==> Base64Spelling(t, b)
  {
    FirstDecodingExact(ENGINES, t);
    if Base64Spelling(t, b) {
      var al, padded :| t == Encode(al, padded, b);
      AllEngines(al, padded);
      assert t == Encode(Engine(al, padded).al, Engine(al, padded).padded, b);
    }
  }

  lemma AllEngines(al: Alphabet, padded: bool)
    ensures Engine(al, padded) in ENGINES
  {
    assert ENGINES[0] == Engine(Standard, true) && ENGINES[1] == Engine(UrlSafe, true);
    assert ENGINES[2] == Engine(Standard, false) && ENGINES[3] == Engine(UrlSafe, false);
  }

  /** Normalising gives the lowercase hexadecimal of the bytes the text denotes, for every
      text; text that denotes nothing gives nothing. */
  lemma NormalisesExactly(s: string, b: Bytes)
    ensures HashToHex(s) == Some(Hex(b)) <==> Denotes(s, b)
  {
    var t := Trim(s);
    if HexLooking(t) {
      HexLookingSpells(t);
      var c :| HexSpelling(t, c);
      LowerIsHex(t, c);
      if Hex(b) == Hex(c) { HexInjective(b, c); }
      if HexSpelling(t, b) { LowerIsHex(t, b); }
    } else {
      DecodingIsSpelling(t, b);
      if HexSpelling(t, b) { SpellingLooksHex(t, b); }
      if FirstDecoding(ENGINES, t).Some? && Hex(b) == Hex(FirstDecoding(ENGINES, t).value) {
        HexInjective(b, FirstDecoding(ENGINES, t).value);
      }
    }
  }

  lemma NormalHasBytes(s: string) returns (b: Bytes)
    requires HashToHex(s).Some?
    ensures HashToHex(s) == Some(Hex(b))
  {
    var t := Trim(s);
    if HexLooking(t) {
      HexLookingSpells(t);
      b :| HexSpelling(t, b);
      LowerIsHex(t, b);
    } else {
      b := FirstDecoding(ENGINES, t).value;
    }
  }

  /** The etag test holds exactly when some listed hash denotes the same bytes. */
  lemma MatchesExactly(stored: string, hashes: map<string, string>)
    ensures EtagMatches(stored, hashes) <==>
              exists k, b :: k in hashes && Denotes(stored, b) && Denotes(hashes[k], b)
  {
    if EtagMatches(stored, hashes) {
      var b := NormalHasBytes(stored);
      NormalisesExactly(stored, b);
      var k :| k in hashes && HashToHex(hashes[k]) == HashToHex(stored);
      NormalisesExactly(hashes[k], b);
    }
    if k, b :| k in hashes && Denotes(stored, b) && Denotes(hashes[k], b) {
      NormalisesExactly(stored, b);
      NormalisesExactly(hashes[k], b);
    }
  }

  /** Normalising twice changes nothing. */
  lemma Idempotent(s: string)
    requires HashToHex(s).Some?
    ensures HashToHex(HashToHex(s).value) == HashToHex(s)
  {
    var b := NormalHasBytes(s);
    NormalisesExactly(s, b);
    DenotedNonEmpty(s, b);
    HexSpellsItself(b);
    HexReads(Hex(b), b, "", "");
    assert "" + Hex(b) + "" == Hex(b);
  }

  lemma DenotedNonEmpty(s: string, b: Bytes)
    requires Denotes(s, b)
    ensures b != []
  {
    if Base64Spelling(Trim(s), b) {
      var al, padded :| Trim(s) == Encode(al, padded, b);
    }
  }

  // ------------------------------------------------------- every spelling of given bytes

  /** Hexadecimal in any case, with white space around it, normalises to lowercase. */
  lemma HexReads(t: string, b: Bytes, before: string, after: string)
    requires b != [] && HexSpelling(t, b) && AllSpace(before) && AllSpace(after)
    ensures HashToHex(before + t + after) == Some(Hex(b))
  {
    SpellingLooksHex(t, b);
    DigitFacts(t[0]);
    DigitFacts(t[|t| - 1]);
    TrimSurrounded(before, t, after);
    LowerIsHex(t, b);
  }

  lemma SymbolsTight(al: Alphabet, padded: bool, b: Bytes)
    requires b != []
    ensures Tight(Encode(al, padded, b))
  {
    UnbodyBody(al, b);
    var body := Body(al, b);
    assert body != "";
    assert Value(body[0]) >= 0 && Value(body[|body| - 1]) >= 0;
    SymbolNoSpace(body[0]);
    SymbolNoSpace(body[|body| - 1]);
  }

  lemma SymbolNoSpace(c: char)
    ensures Value(c) >= 0 ==> !IsSpace(c)
  {
  }

  /** A base64 spelling, in either alphabet, padded or not, normalises to its own bytes
      exactly when it cannot be read as hexadecimal. */
  lemma Base64Reads(al: Alphabet, padded: bool, b: Bytes, before: string, after: string)
    requires b != [] && AllSpace(before) && AllSpace(after)
    ensures var t := Encode(al, padded, b);
            HashToHex(before + t + after) == Some(Hex(b)) <==> !HexLooking(t)
  {
    var t := Encode(al, padded, b);
    SymbolsTight(al, padded, b);
    TrimSurrounded(before, t, after);
    NormalisesExactly(before + t + after, b);
    if HexSpelling(t, b) { NeverBoth(al, padded, b); }
  }

  lemma {:induction false} SplitIsShort(b: Bytes)
    ensures 3 * |Split(b)| <= 4 * |b| + 2
  {
    if |b| >= 3 { SplitIsShort(b[3..]); }
  }

  /** No base64 spelling is at the same time the hexadecimal spelling of the same bytes:
      padding is no digit, two and more bytes take more room in hexadecimal, and the 256
      single bytes all differ. */
  lemma NeverBoth(al: Alphabet, padded: bool, b: Bytes)
    requires b != []
    ensures !HexSpelling(Encode(al, padded, b), b)
  {
    var t := Encode(al, padded, b);
    UnbodyBody(al, b);
    PadsBack(al, padded, b);
    SplitIsShort(b);
    if HexSpelling(t, b) {
      SpellingLooksHex(t, b);
      assert HexValue(t[|t| - 1]) >= 0;
      DigitFacts(t[|t| - 1]);
      assert Unpadded(t) == t;
      assert |b| == 1;
      assert HexPair(t, 0, b[0]);
      OneByteDiffers(al, b[0]);
    }
  }

  lemma OneByteDiffers(al: Alphabet, x: Byte)
    ensures |Body(al, [x])| == 2 && !HexPair(Body(al, [x]), 0, x)
  {
    var p: int, q: int := S0(x), S1(x, 0);
    assert Split([x]) == [S0(x), S1(x, 0)];
    assert q == 0 || q == 16 || q == 32 || q == 48;
    assert q == 0 ==> x == 4 * p;
  }

  /** Padding is never read as hexadecimal, so the padded spelling of bytes whose number is
      not a multiple of three always normalises; the digests in use are of that kind. */
  lemma PaddedAlwaysReads(al: Alphabet, b: Bytes, before: string, after: string)
    requires |b| % 3 != 0 && AllSpace(before) && AllSpace(after)
    ensures HashToHex(before + Encode(al, true, b) + after) == Some(Hex(b))
  {
    var t := Encode(al, true, b);
    assert t[|t| - 1] == '=';
    DigitFacts('=');
    Base64Reads(al, true, b, before, after);
  }

  /** Three bytes whose base64 spelling is read as hexadecimal instead. */
  lemma Base64ReadAsHex()
    ensures Encode(Standard, true, [105, 183, 29]) == "abcd"
    ensures HashToHex("abcd") == Some("abcd") && Hex([105, 183, 29]) != "abcd"
  {
    assert Split([105, 183, 29]) == [26, 27, 28, 29];
    assert HexLooking("abcd") && Trim("abcd") == "abcd" && Lower("abcd") == "abcd";
    HexLength([105, 183, 29]);
  }
}
