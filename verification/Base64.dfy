/** Base64 as sections 4 and 5 of RFC 4648 define it, decoded strictly: canonical padding
    where padding is expected, none where it is not, and zero trailing bits. */
module Base64 {
  import opened Types

  type Sextet = x: int | 0 <= x < 64

  datatype Alphabet = Standard | UrlSafe

  /** The character for a six-bit value. */
  function Symbol(al: Alphabet, v: Sextet): char {
    if v < 26 then 'A' + v as char
    else if v < 52 then 'a' + (v - 26) as char
    else if v < 62 then '0' + (v - 52) as char
    else if v == 62 then (if al.Standard? then '+' else '-')
    else (if al.Standard? then '/' else '_')
  }

  /** The six-bit value of a character of either alphabet, or -1. */
  function Value(c: char): (v: int)
    ensures -1 <= v < 64
  {
    if 'A' <= c <= 'Z' then c as int - 'A' as int
    else if 'a' <= c <= 'z' then c as int - 'a' as int + 26
    else if '0' <= c <= '9' then c as int - '0' as int + 52
    else if c == '+' || c == '-' then 62
    else if c == '/' || c == '_' then 63
    else -1
  }

  predicate InAlphabet(al: Alphabet, c: char) {
    Value(c) >= 0 && (Value(c) < 62 || c == Symbol(al, Value(c)))
  }

  lemma SymbolValue(al: Alphabet)
    ensures forall v: Sextet {:trigger Symbol(al, v)} :: Value(Symbol(al, v)) == v && InAlphabet(al, Symbol(al, v))
    ensures forall c {:trigger Value(c)} :: InAlphabet(al, c) ==> Symbol(al, Value(c)) == c
  {
  }

  /** Tables 1 and 2 of RFC 4648: the 64 characters of both alphabets, in the order of their
      values. */
  function Table(al: Alphabet): string {
    "ABCDEFGHIJKLMNOPQRSTUVWXYZ" + "abcdefghijklmnopqrstuvwxyz" + "0123456789" +
    if al.Standard? then "+/" else "-_"
  }

  lemma Capitals(k: nat)
    requires k < 26
    ensures "ABCDEFGHIJKLMNOPQRSTUVWXYZ"[k] == 'A' + k as char
  {
  }

  lemma Smalls(k: nat)
    requires k < 26
    ensures "abcdefghijklmnopqrstuvwxyz"[k] == 'a' + k as char
  {
  }

  lemma Digits(k: nat)
    requires k < 10
    ensures "0123456789"[k] == '0' + k as char
  {
  }

  lemma JoinedAt(a: string, b: string, c: string, d: string, v: Sextet)
    requires |a| == 26 && |b| == 26 && |c| == 10 && |d| == 2
    ensures |a + b + c + d| == 64
    ensures (a + b + c + d)[v] == if v < 26 then a[v] else if v < 52 then b[v - 26] else if v < 62 then c[v - 52]
                                  else d[v - 62]
  {
  }

  lemma TableAt(al: Alphabet, v: Sextet)
    ensures |Table(al)| == 64 && Table(al)[v] == Symbol(al, v)
  {
    JoinedAt("ABCDEFGHIJKLMNOPQRSTUVWXYZ", "abcdefghijklmnopqrstuvwxyz", "0123456789",
             if al.Standard? then "+/" else "-_", v);
    if v < 26 { Capitals(v); } else if v < 52 { Smalls(v - 26); } else if v < 62 { Digits(v - 52); }
  }

  /** The symbols are those of the tables, and an engine accepts no others. */
  lemma AlphabetSpelled(al: Alphabet, v: Sextet, c: char)
    ensures |Table(al)| == 64 && Symbol(al, v) == Table(al)[v]
    ensures InAlphabet(al, c) <==> c in Table(al)
  {
    TableAt(al, v);
    forall w: Sextet ensures |Table(al)| == 64 && Table(al)[w] == Symbol(al, w) { TableAt(al, w); }
    SymbolsOnly(al, Table(al), c);
  }

  lemma SymbolsOnly(al: Alphabet, table: string, c: char)
    requires |table| == 64 && forall w: Sextet :: table[w] == Symbol(al, w)
    ensures InAlphabet(al, c) <==> c in table
  {
    SymbolValue(al);
    if InAlphabet(al, c) { assert table[Value(c)] == c; }
    if c in table {
      var k: Sextet :| table[k] == c;
      assert Symbol(al, k) == c;
    }
  }

  /** The characters of some six-bit values, and the values of some characters. */
  function Spell(al: Alphabet, v: seq<Sextet>): string { seq(|v|, i requires 0 <= i < |v| => Symbol(al, v[i])) }

  predicate AllIn(al: Alphabet, s: string) { forall i :: 0 <= i < |s| ==> InAlphabet(al, s[i]) }

  predicate AllSymbols(s: string) { forall i :: 0 <= i < |s| ==> Value(s[i]) >= 0 }

  function Values(s: string): seq<Sextet>
    requires AllSymbols(s)
  {
    seq(|s|, i requires 0 <= i < |s| => Value(s[i]))
  }

  lemma ValuesOfSpell(al: Alphabet, v: seq<Sextet>)
    ensures AllIn(al, Spell(al, v)) && AllSymbols(Spell(al, v)) && Values(Spell(al, v)) == v
  {
    SymbolValue(al);
  }

  lemma SpellOfValues(al: Alphabet, s: string)
    requires AllIn(al, s)
    ensures AllSymbols(s) && Spell(al, Values(s)) == s
  {
    forall i | 0 <= i < |s| ensures Value(s[i]) >= 0 && Symbol(al, Value(s[i])) == s[i] {
      assert InAlphabet(al, s[i]);
      SymbolValue(al);
    }
  }

  // ------------------------------------------------------ three bytes, four sextets

  function S0(x: Byte): Sextet { x / 4 }
  function S1(x: Byte, y: Byte): Sextet { x % 4 * 16 + y / 16 }
  function S2(y: Byte, z: Byte): Sextet { y % 16 * 4 + z / 64 }
  function S3(z: Byte): Sextet { z % 64 }

  /** Section 4 of RFC 4648: a group of 24 bits read as a number is the same number in four
      digits of base 64; a shorter group gets zero bits on the right. */
  lemma GroupSpelled(x: Byte, y: Byte, z: Byte)
    ensures Split([x, y, z]) == [S0(x), S1(x, y), S2(y, z), S3(z)]
    ensures S0(x) * 262144 + S1(x, y) * 4096 + S2(y, z) * 64 + S3(z) == x * 65536 + y * 256 + z
    ensures Split([x, y]) == [S0(x), S1(x, y), S2(y, 0)]
    ensures S0(x) * 4096 + S1(x, y) * 64 + S2(y, 0) == (x * 256 + y) * 4
    ensures Split([x]) == [S0(x), S1(x, 0)] && S0(x) * 64 + S1(x, 0) == x * 16
  {
    assert [x, y, z][3..] == [];
  }

  function B0(p: Sextet, q: Sextet): Byte { p * 4 + q / 16 }
  function B1(q: Sextet, r: Sextet): Byte { q % 16 * 16 + r / 4 }
  function B2(r: Sextet, s: Sextet): Byte { r % 4 * 64 + s }

  /** Groups of three bytes become four sextets; one or two bytes left over become two or
      three, with zero bits at the end. */
  function Split(b: Bytes): seq<Sextet> {
    if b == [] then []
    else if |b| == 1 then [S0(b[0]), S1(b[0], 0)]
    else if |b| == 2 then [S0(b[0]), S1(b[0], b[1]), S2(b[1], 0)]
    else [S0(b[0]), S1(b[0], b[1]), S2(b[1], b[2]), S3(b[2])] + Split(b[3..])
  }

  function Merge(v: seq<Sextet>): Option<Bytes> {
    if v == [] then Some([])
    else if |v| == 1 then None
    else if |v| == 2 then if v[1] % 16 == 0 then Some([B0(v[0], v[1])]) else None
    else if |v| == 3 then if v[2] % 4 == 0 then Some([B0(v[0], v[1]), B1(v[1], v[2])]) else None
    else
      match Merge(v[4..])
      case None => None
      case Some(rest) => Some([B0(v[0], v[1]), B1(v[1], v[2]), B2(v[2], v[3])] + rest)
  }

  lemma SplitStep(x: Byte, y: Byte, z: Byte)
    ensures B0(S0(x), S1(x, y)) == x && B1(S1(x, y), S2(y, z)) == y && B2(S2(y, z), S3(z)) == z
    ensures S1(x, 0) % 16 == 0 && S2(y, 0) % 4 == 0
  {
    assert S1(x, y) % 16 == y / 16 && S2(y, z) / 4 == y % 16 && S2(y, z) % 4 == z / 64;
  }

  lemma MergeTwo(p: Sextet, q: Sextet, x: Byte)
    requires q % 16 == 0 && x == B0(p, q)
    ensures Merge([p, q]) == Some([x])
  {
  }

  lemma MergeThree(p: Sextet, q: Sextet, r: Sextet, x: Byte, y: Byte)
    requires r % 4 == 0 && x == B0(p, q) && y == B1(q, r)
    ensures Merge([p, q, r]) == Some([x, y])
  {
  }

  lemma MergeFour(p: Sextet, q: Sextet, r: Sextet, s: Sextet, v: seq<Sextet>, x: Byte, y: Byte, z: Byte)
    requires x == B0(p, q) && y == B1(q, r) && z == B2(r, s) && Merge(v).Some?
    ensures Merge([p, q, r, s] + v) == Some([x, y, z] + Merge(v).value)
  {
    var u := [p, q, r, s] + v;
    assert u[0] == p && u[1] == q && u[2] == r && u[3] == s && u[4..] == v;
    assert Merge(u) == Some([B0(u[0], u[1]), B1(u[1], u[2]), B2(u[2], u[3])] + Merge(u[4..]).value);
  }

  lemma {:induction false} MergeSplit(b: Bytes)
    ensures Merge(Split(b)) == Some(b)
  {
    if |b| == 1 {
      var x := b[0];
      assert b == [x];
      SplitStep(x, 0, 0);
      MergeTwo(S0(x), S1(x, 0), x);
    } else if |b| == 2 {
      var x, y := b[0], b[1];
      assert b == [x, y];
      SplitStep(x, y, 0);
      MergeThree(S0(x), S1(x, y), S2(y, 0), x, y);
    } else if |b| >= 3 {
      var x, y, z := b[0], b[1], b[2];
      MergeSplit(b[3..]);
      SplitStep(x, y, z);
      MergeFour(S0(x), S1(x, y), S2(y, z), S3(z), Split(b[3..]), x, y, z);
      assert [x, y, z] + b[3..] == b;
    }
  }

  lemma {:induction false} SplitLength(b: Bytes)
    ensures |Split(b)| % 4 == (if |b| % 3 == 0 then 0 else |b| % 3 + 1)
  {
    if |b| >= 3 {
      SplitLength(b[3..]);
      ThirdStep(|b|, |Split(b[3..])|);
    }
  }

  lemma ThirdStep(n: nat, m: nat)
    requires n >= 3
    ensures n % 3 == (n - 3) % 3 && (m + 4) % 4 == m % 4
  {
  }

  lemma MergeStep(p: Sextet, q: Sextet, r: Sextet, s: Sextet)
    ensures S0(B0(p, q)) == p && S1(B0(p, q), B1(q, r)) == q && S2(B1(q, r), B2(r, s)) == r && S3(B2(r, s)) == s
    ensures q % 16 == 0 ==> S1(B0(p, q), 0) == q
    ensures r % 4 == 0 ==> S2(B1(q, r), 0) == r
  {
    assert B0(p, q) % 4 == q / 16 && B1(q, r) / 16 == q % 16 && B1(q, r) % 16 == r / 4 && B2(r, s) / 64 == r % 4;
  }

  lemma SplitOneByte(p: Sextet, q: Sextet)
    requires q % 16 == 0
    ensures Split([B0(p, q)]) == [p, q]
  {
    MergeStep(p, q, 0, 0);
  }

  lemma SplitTwoBytes(p: Sextet, q: Sextet, r: Sextet)
    requires r % 4 == 0
    ensures Split([B0(p, q), B1(q, r)]) == [p, q, r]
  {
    MergeStep(p, q, r, 0);
  }

  lemma SplitGroup(p: Sextet, q: Sextet, r: Sextet, s: Sextet, rest: Bytes)
    ensures Split([B0(p, q), B1(q, r), B2(r, s)] + rest) == [p, q, r, s] + Split(rest)
  {
    var b := [B0(p, q), B1(q, r), B2(r, s)] + rest;
    MergeStep(p, q, r, s);
    assert b[0] == B0(p, q) && b[1] == B1(q, r) && b[2] == B2(r, s) && b[3..] == rest;
    assert Split(b) == [S0(b[0]), S1(b[0], b[1]), S2(b[1], b[2]), S3(b[2])] + Split(b[3..]);
  }

  lemma {:induction false} SplitMerge(v: seq<Sextet>)
    requires Merge(v).Some?
    ensures Split(Merge(v).value) == v
  {
    if |v| == 2 {
      SplitOneByte(v[0], v[1]);
      assert v == [v[0], v[1]];
    } else if |v| == 3 {
      SplitTwoBytes(v[0], v[1], v[2]);
      assert v == [v[0], v[1], v[2]];
    } else if |v| >= 4 {
      SplitMerge(v[4..]);
      SplitGroup(v[0], v[1], v[2], v[3], Merge(v[4..]).value);
      assert v == [v[0], v[1], v[2], v[3]] + v[4..];
    }
  }

  // ------------------------------------------------------------------- the engines

  function Body(al: Alphabet, b: Bytes): string { Spell(al, Split(b)) }

  function Padding(b: Bytes): string {
    if |b| % 3 == 1 then "==" else if |b| % 3 == 2 then "=" else ""
  }

  function Encode(al: Alphabet, padded: bool, b: Bytes): string {
    Body(al, b) + if padded then Padding(b) else ""
  }

  /** The text without the padding at its end. */
  function Unpadded(s: string): string {
    if |s| >= 2 && s[|s| - 2] == '=' && s[|s| - 1] == '=' then s[..|s| - 2]
    else if |s| >= 1 && s[|s| - 1] == '=' then s[..|s| - 1]
    else s
  }

  /** One decoding engine: an alphabet, and whether padding is required or forbidden. */
  function Decode(al: Alphabet, padded: bool, s: string): Option<Bytes> {
    if padded && |s| % 4 != 0 then None
    else
      var body := if padded then Unpadded(s) else s;
      if AllIn(al, body) then Unbody(body) else None
  }

  function Unbody(s: string): Option<Bytes> { if AllSymbols(s) then Merge(Values(s)) else None }

  lemma UnbodyBody(al: Alphabet, b: Bytes)
    ensures AllIn(al, Body(al, b)) && AllSymbols(Body(al, b)) && Unbody(Body(al, b)) == Some(b)
    ensures |Body(al, b)| % 4 == (if |b| % 3 == 0 then 0 else |b| % 3 + 1)
  {
    MergeSplit(b);
    SplitLength(b);
    ValuesOfSpell(al, Split(b));
  }

  lemma BodyUnbody(al: Alphabet, s: string)
    requires AllIn(al, s) && Unbody(s).Some?
    ensures Body(al, Unbody(s).value) == s
  {
    SpellOfValues(al, s);
    SplitMerge(Values(s));
  }

  lemma PadIsNoSymbol(s: string)
    requires AllSymbols(s)
    ensures forall i :: 0 <= i < |s| ==> s[i] != '='
  {
    assert Value('=') == -1;
    forall i | 0 <= i < |s| ensures s[i] != '=' { assert Value(s[i]) >= 0; }
  }

  lemma UnpaddedSymbols(s: string, padding: string)
    requires |padding| <= 2
    requires forall i :: 0 <= i < |s| ==> s[i] != '='
    requires forall i :: 0 <= i < |padding| ==> padding[i] == '='
    ensures Unpadded(s + padding) == s
  {
    var t := s + padding;
    assert t[..|s|] == s && |t| == |s| + |padding|;
    assert forall i :: 0 <= i < |s| ==> t[i] == s[i];
    assert forall i :: |s| <= i < |t| ==> t[i] == '=';
    assert |padding| == 0 ==> t == s;
  }

  lemma PaddedLength(body: string, b: Bytes)
    requires |body| % 4 == (if |b| % 3 == 0 then 0 else |b| % 3 + 1)
    ensures |body + Padding(b)| % 4 == 0
  {
    assert |b| % 3 == 0 || |b| % 3 == 1 || |b| % 3 == 2;
  }

  lemma PadsBack(al: Alphabet, padded: bool, b: Bytes)
    ensures Unpadded(Encode(al, padded, b)) == Body(al, b)
    ensures padded ==> |Encode(al, padded, b)| % 4 == 0
    ensures !padded ==> Encode(al, padded, b) == Body(al, b)
  {
    UnbodyBody(al, b);
    WithPadding(Body(al, b), padded, b);
  }

  lemma WithPadding(body: string, padded: bool, b: Bytes)
    requires AllSymbols(body) && |body| % 4 == (if |b| % 3 == 0 then 0 else |b| % 3 + 1)
    ensures var s := body + if padded then Padding(b) else "";
            && Unpadded(s) == body
            && (padded ==> |s| % 4 == 0)
            && (!padded ==> s == body)
  {
    PadIsNoSymbol(body);
    UnpaddedSymbols(body, if padded then Padding(b) else "");
    PaddedLength(body, b);
    assert body + "" == body;
  }

  lemma Stripped(s: string)
    ensures var k := |Unpadded(s)|; |s| - 2 <= k <= |s| && s == Unpadded(s) + s[k..] && s[k..] == "=="[..|s| - k]
  {
  }

  lemma PaddingLength(n: nat, k: nat, b: Bytes, tail: string)
    requires n % 4 == 0 && n - 2 <= k <= n && k % 4 == (if |b| % 3 == 0 then 0 else |b| % 3 + 1)
    requires tail == "=="[..n - k]
    ensures tail == Padding(b)
  {
  }

  lemma UnpaddedPads(al: Alphabet, s: string)
    requires |s| % 4 == 0 && AllIn(al, Unpadded(s)) && Unbody(Unpadded(s)).Some?
    ensures Encode(al, true, Unbody(Unpadded(s)).value) == s
  {
    var body := Unpadded(s);
    var b := Unbody(body).value;
    BodyUnbody(al, body);
    UnbodyBody(al, b);
    Stripped(s);
    assert s[|body|..] == Padding(b) by { PaddingLength(|s|, |body|, b, s[|body|..]); }
  }

  /** An engine decodes exactly what it encodes: nothing else has a decoding. */
  lemma DecodesExactly(al: Alphabet, padded: bool, s: string, b: Bytes)
    ensures Decode(al, padded, s) == Some(b) <==> s == Encode(al, padded, b)
  {
    UnbodyBody(al, b);
    PadsBack(al, padded, b);
    if Decode(al, padded, s) == Some(b) {
      if padded { UnpaddedPads(al, s); } else { BodyUnbody(al, s); }
    }
  }

  /** Two engines that both accept a text agree on the bytes. */
  lemma EnginesAgree(al: Alphabet, padded: bool, b: Bytes, al': Alphabet, padded': bool, b': Bytes)
    requires Encode(al, padded, b) == Encode(al', padded', b')
    ensures b == b'
  {
    PadsBack(al, padded, b);
    PadsBack(al', padded', b');
    UnbodyBody(al, b);
    UnbodyBody(al', b');
  }
}
