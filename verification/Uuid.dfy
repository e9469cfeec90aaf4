/** UUIDs: sixteen bytes, their text form and their random generation. */
module Uuid {
  import Xoshiro

  type Bytes = b: seq<bv8> | |b| == 16 witness Repeat16(0)

  function Repeat16(x: bv8): seq<bv8> {
    seq(16, _ => x)
  }

  datatype Status = Ok | InParameter

  // ----- digits

  /** `"0123456789abcdef"[n]` */
  function HexDigit(n: bv8): char
    requires n < 16
  {
    if n == 0 then '0' else if n == 1 then '1' else if n == 2 then '2' else if n == 3 then '3'
    else if n == 4 then '4' else if n == 5 then '5' else if n == 6 then '6' else if n == 7 then '7'
    else if n == 8 then '8' else if n == 9 then '9' else if n == 10 then 'a' else if n == 11 then 'b'
    else if n == 12 then 'c' else if n == 13 then 'd' else if n == 14 then 'e' else 'f'
  }

  /** The character to nibble table; characters not listed map to 0. */
  function Nibble(c: char): bv8 {
    if c == '1' then 1 else if c == '2' then 2 else if c == '3' then 3 else if c == '4' then 4
    else if c == '5' then 5 else if c == '6' then 6 else if c == '7' then 7 else if c == '8' then 8
    else if c == '9' then 9 else if c == 'a' || c == 'A' then 10 else if c == 'b' || c == 'B' then 11
    else if c == 'c' || c == 'C' then 12 else if c == 'd' || c == 'D' then 13
    else if c == 'e' || c == 'E' then 14 else if c == 'f' || c == 'F' then 15 else 0
  }

  predicate IsHex(c: char) {
    '0' <= c <= '9' || 'a' <= c <= 'f' || 'A' <= c <= 'F'
  }

  function Lower(c: char): char {
    if c == 'A' then 'a' else if c == 'B' then 'b' else if c == 'C' then 'c'
    else if c == 'D' then 'd' else if c == 'E' then 'e' else if c == 'F' then 'f' else c
  }

  function LowerAll(t: string): string {
    seq(|t|, i requires 0 <= i < |t| => Lower(t[i]))
  }

  lemma HighNibble(b: bv8)
    ensures b >> 4 < 16
  {
  }

  lemma LowNibble(b: bv8)
    ensures b & 0x0F < 16
  {
  }

  function High(b: bv8): char {
    HighNibble(b);
    HexDigit(b >> 4)
  }

  function Low(b: bv8): char {
    LowNibble(b);
    HexDigit(b & 0x0F)
  }

  function Join(hi: bv8, lo: bv8): bv8 {
    (hi << 4) | lo
  }

  lemma NibbleOfDigit(n: bv8)
    requires n < 16
    ensures Nibble(HexDigit(n)) == n && IsHex(HexDigit(n)) && HexDigit(n) != '-'
  {
  }

  lemma DigitOfNibble(c: char)
    requires IsHex(c)
    ensures Nibble(c) < 16 && HexDigit(Nibble(c)) == Lower(c)
  {
  }

  lemma JoinOfNibbles(b: bv8)
    ensures Join(b >> 4, b & 0x0F) == b
  {
  }

  lemma NibblesOfJoin(hi: bv8, lo: bv8)
    requires hi < 16 && lo < 16
    ensures Join(hi, lo) >> 4 == hi && Join(hi, lo) & 0x0F == lo
  {
  }

  /** The two digits of a byte give the byte back. */
  lemma ByteOfDigits(b: bv8)
    ensures Join(Nibble(High(b)), Nibble(Low(b))) == b
    ensures High(b) != '-' && InTable(High(b)) && InTable(Low(b)) && High(b) != '\0' && Low(b) != '\0'
  {
    hide Join, HexDigit, Nibble;
    HighNibble(b);
    LowNibble(b);
    NibbleOfDigit(b >> 4);
    NibbleOfDigit(b & 0x0F);
    JoinOfNibbles(b);
    HexIsNoDash(High(b));
    HexIsNoDash(Low(b));
  }

  /** The byte of two digits prints as these digits in lower case. */
  lemma DigitsOfByte(c: char, d: char)
    requires IsHex(c) && IsHex(d)
    ensures var b := Join(Nibble(c), Nibble(d)); High(b) == Lower(c) && Low(b) == Lower(d)
  {
    hide Join, HexDigit, Nibble, Lower;
    DigitOfNibble(c);
    DigitOfNibble(d);
    NibblesOfJoin(Nibble(c), Nibble(d));
  }

  /** The digits by their values. */
  lemma DigitsByValue(n: bv8, c: char)
    ensures n < 16 ==> HexDigit(n) == "0123456789abcdef"[n as int]
    ensures Nibble(c) as int ==
      if '0' <= c <= '9' then c as int - '0' as int
      else if 'a' <= c <= 'f' then c as int - 'a' as int + 10
      else if 'A' <= c <= 'F' then c as int - 'A' as int + 10
      else 0
  {
  }

  // ----- text form

  /** Whether a dash precedes byte `i`. */
  predicate DashBefore(i: nat) {
    i == 4 || i == 6 || i == 8 || i == 10
  }

  /** Text of the bytes from byte `i` on. */
  function TextFrom(bytes: seq<bv8>, i: nat): string {
    if bytes == [] then []
    else (if DashBefore(i) then "-" else "") + [High(bytes[0]), Low(bytes[0])] + TextFrom(bytes[1..], i + 1)
  }

  function Text(u: Bytes): string {
    TextFrom(u, 0)
  }

  /** Text left after the optional dash. */
  function SkipDash(t: string): string {
    if t != [] && t[0] == '-' then t[1..] else t
  }

  /** A character the nibble table has an entry for. */
  predicate InTable(c: char) {
    (c as int) < 0x80
  }

  /** Whether reading from `t`, with `j` bytes done, stays within the string and the nibble
      table: what the code expects of its caller. */
  predicate Readable(t: string, j: nat)
    decreases 16 - j
  {
    j >= 16 || t == [] ||
    (var r := SkipDash(t); |r| >= 2 && InTable(r[0]) && InTable(r[1]) && Readable(r[2..], j + 1))
  }

  /** A string that ends inside a byte: the code takes the terminator for its second digit, and
      goes on behind it. */
  lemma HalfByteIsNotReadable()
    ensures !Readable("0", 0)
  {
    assert SkipDash("0") == "0";
  }

  /** The bytes read from `t` when `j` bytes are done. A dash is skipped before any byte, and
      digits are not checked. */
  function BytesFrom(t: string, j: nat): (b: seq<bv8>)
    requires Readable(t, j)
    ensures j <= 16 ==> |b| <= 16 - j
    decreases 16 - j
  {
    if j >= 16 || t == [] then []
    else
      var r := SkipDash(t);
      [Join(Nibble(r[0]), Nibble(r[1]))] + BytesFrom(r[2..], j + 1)
  }

  /** Main result: reading the text of a UUID gives the UUID. */
  lemma {:induction false} BytesOfText(bytes: seq<bv8>, i: nat)
    requires |bytes| + i == 16
    ensures Readable(TextFrom(bytes, i), i) && BytesFrom(TextFrom(bytes, i), i) == bytes
    decreases |bytes|
  {
    hide Join, Nibble, High, Low;
    if bytes != [] {
      var t := TextFrom(bytes, i);
      ByteOfDigits(bytes[0]);
      assert SkipDash(t) == [High(bytes[0]), Low(bytes[0])] + TextFrom(bytes[1..], i + 1);
      assert SkipDash(t)[2..] == TextFrom(bytes[1..], i + 1);
      BytesOfText(bytes[1..], i + 1);
    }
  }

  /** The 8-4-4-4-12 form of section 4 of RFC 9562, read byte by byte from byte `i` on. */
  predicate Canonical(t: string, i: nat)
    decreases 16 - i
  {
    if i >= 16 then t == []
    else
      && (DashBefore(i) ==> t != [] && t[0] == '-')
      && var r := if DashBefore(i) then t[1..] else t;
      && |r| >= 2 && IsHex(r[0]) && IsHex(r[1]) && Canonical(r[2..], i + 1)
  }

  /** Position of the first digit of byte `i` in the text. */
  function DigitPosition(i: nat): nat {
    2 * i + (if i >= 4 then 1 else 0) + (if i >= 6 then 1 else 0) + (if i >= 8 then 1 else 0) + (if i >= 10 then 1 else 0)
  }

  /** Position at which the text of byte `i` begins, a dash included. */
  function Position(i: nat): nat {
    if DashBefore(i) then DigitPosition(i) - 1 else DigitPosition(i)
  }

  predicate IsDashPosition(p: nat) {
    p == 8 || p == 13 || p == 18 || p == 23
  }

  predicate CharacterFits(p: nat, c: char) {
    if IsDashPosition(p) then c == '-' else IsHex(c)
  }

  /** The same form by positions: 36 characters, dashes at 8, 13, 18 and 23, digits elsewhere. */
  predicate HasForm(t: string, i: nat) {
    |t| + Position(i) == 36 && forall k | 0 <= k < |t| :: CharacterFits(Position(i) + k, t[k])
  }

  function DashCount(i: nat): nat {
    if DashBefore(i) then 1 else 0
  }

  lemma PositionStep(i: nat)
    requires i < 16
    ensures var p, d := Position(i), DashCount(i);
            && Position(i + 1) == p + d + 2
            && (d == 1 ==> IsDashPosition(p)) && !IsDashPosition(p + d) && !IsDashPosition(p + d + 1)
  {
  }

  lemma FormStep(t: string, i: nat)
    requires i < 16 && |t| >= DashCount(i) + 2
    ensures var d := DashCount(i);
            HasForm(t, i) <==>
              (d == 1 ==> t[0] == '-') && IsHex(t[d]) && IsHex(t[d + 1]) && HasForm(t[d..][2..], i + 1)
  {
    var p, d := Position(i), DashCount(i);
    PositionStep(i);
    hide Position, IsHex, IsDashPosition;
    var rest := t[d..][2..];
    assert forall k | 0 <= k < |rest| :: rest[k] == t[k + d + 2];
    if HasForm(t, i) {
      assert CharacterFits(p, t[0]) && CharacterFits(p + d, t[d]) && CharacterFits(p + d + 1, t[d + 1]);
      forall k | 0 <= k < |rest|
        ensures CharacterFits(Position(i + 1) + k, rest[k])
      {
        assert CharacterFits(p + (k + d + 2), t[k + d + 2]);
      }
    }
    if (d == 1 ==> t[0] == '-') && IsHex(t[d]) && IsHex(t[d + 1]) && HasForm(rest, i + 1) {
      forall k | 0 <= k < |t|
        ensures CharacterFits(p + k, t[k])
      {
        if k >= d + 2 {
          assert CharacterFits(Position(i + 1) + (k - d - 2), rest[k - d - 2]);
        }
      }
    }
  }

  lemma FormTooShort(t: string, i: nat)
    requires i < 16 && |t| < DashCount(i) + 2
    ensures !HasForm(t, i)
  {
  }

  /** The grammar and the description by positions agree. */
  lemma {:induction false} CanonicalIffForm(t: string, i: nat)
    requires i <= 16
    ensures Canonical(t, i) <==> HasForm(t, i)
    decreases 16 - i
  {
    if i < 16 {
      var d := DashCount(i);
      if |t| >= d + 2 {
        FormStep(t, i);
        CanonicalIffForm(t[d..][2..], i + 1);
      } else {
        FormTooShort(t, i);
      }
    }
  }

  lemma LowerOfPieces(t: string, d: nat)
    requires d <= 1 && |t| >= d + 2 && (d == 1 ==> t[0] == '-')
    ensures LowerAll(t) == (if d == 1 then "-" else "") + [Lower(t[d]), Lower(t[d + 1])] + LowerAll(t[d..][2..])
  {
  }

  /** Main result: printing what was read from a string in canonical form gives that string in
      lower case. */
  lemma {:induction false} TextOfBytes(t: string, i: nat)
    requires i <= 16 && Canonical(t, i)
    ensures Readable(t, i) && |BytesFrom(t, i)| == 16 - i
    ensures TextFrom(BytesFrom(t, i), i) == LowerAll(t)
    decreases 16 - i
  {
    hide Join, Nibble, High, Low, Lower, LowerAll, IsHex;
    if i < 16 {
      var d := DashCount(i);
      var r := t[d..];
      HexIsNoDash(r[0]);
      HexIsNoDash(r[1]);
      assert SkipDash(t) == r;
      TextOfBytes(r[2..], i + 1);
      DigitsOfByte(r[0], r[1]);
      assert BytesFrom(t, i)[1..] == BytesFrom(r[2..], i + 1);
      LowerOfPieces(t, d);
    } else {
      assert LowerAll(t) == [] by {
        LowerOfNothing();
      }
    }
  }

  lemma HexIsNoDash(c: char)
    requires IsHex(c)
    ensures c != '-' && c != '\0' && InTable(c)
  {
  }

  lemma LowerOfNothing()
    ensures LowerAll([]) == []
  {
  }

  /** Distinct UUIDs have distinct texts. */
  lemma TextIsInjective(u: Bytes, v: Bytes)
    requires Text(u) == Text(v)
    ensures u == v
  {
    BytesOfText(u, 0);
    BytesOfText(v, 0);
  }

  // ----- the conversions

  lemma {:induction false} TextLength(bytes: seq<bv8>, i: nat)
    requires i + |bytes| == 16
    ensures |TextFrom(bytes, i)| + Position(i) == 36
    decreases |bytes|
  {
    if bytes != [] {
      PositionStep(i);
      TextLength(bytes[1..], i + 1);
    }
  }

  /** The text of one byte. */
  function Piece(b: bv8, i: nat): (t: string)
    ensures |t| == DashCount(i) + 2
  {
    (if DashBefore(i) then "-" else "") + [High(b), Low(b)]
  }

  lemma TextUnfold(bytes: seq<bv8>, i: nat)
    requires bytes != []
    ensures TextFrom(bytes, i) == Piece(bytes[0], i) + TextFrom(bytes[1..], i + 1)
  {
    hide High, Low;
  }

  lemma SliceOfTail<T>(a: seq<T>, b: seq<T>, lo: nat, hi: nat)
    requires lo <= hi <= |b|
    ensures (a + b)[lo + |a|..hi + |a|] == b[lo..hi]
  {
  }

  /** The characters of byte `k` in a text. */
  lemma {:induction false} PieceOfText(bytes: seq<bv8>, i: nat, k: nat)
    requires i <= k < i + |bytes| && i + |bytes| == 16
    ensures Position(i) <= Position(k) <= Position(k + 1) <= Position(i) + |TextFrom(bytes, i)|
    ensures TextFrom(bytes, i)[Position(k) - Position(i)..Position(k + 1) - Position(i)] == Piece(bytes[k - i], k)
    decreases |bytes|
  {
    hide High, Low, Position, Piece, TextFrom;
    PositionStep(i);
    PositionStep(k);
    TextUnfold(bytes, i);
    var head, rest := Piece(bytes[0], i), TextFrom(bytes[1..], i + 1);
    if i == k {
      SliceOfHead(head, rest);
    } else {
      PieceOfText(bytes[1..], i + 1, k);
      SliceOfTail(head, rest, Position(k) - Position(i + 1), Position(k + 1) - Position(i + 1));
    }
  }

  lemma DigitsOfText(u: Bytes, i: nat)
    requires i < 16
    ensures |Text(u)| == 36 && DigitPosition(i) + 1 < 36
    ensures Text(u)[DigitPosition(i)] == High(u[i]) && Text(u)[DigitPosition(i) + 1] == Low(u[i])
  {
    hide High, Low, TextFrom, Nibble;
    TextLength(u, 0);
    PieceOfText(u, 0, i);
    PositionStep(i);
    var t, d := Text(u), DashCount(i);
    var piece := t[Position(i)..Position(i + 1)];
    assert piece == Piece(u[i], i);
    assert piece[d] == High(u[i]) && piece[d + 1] == Low(u[i]);
  }

  /** Main result on printing: the two digits of byte `i`, at its place in the text, are its value
      in base 16. */
  lemma TextShowsBytes(u: Bytes, i: nat)
    requires i < 16
    ensures |Text(u)| == 36 && DigitPosition(i) + 1 < 36
    ensures var (t, p) := (Text(u), DigitPosition(i));
            Nibble(t[p]) as int * 16 + Nibble(t[p + 1]) as int == u[i] as int
  {
    hide High, Low, TextFrom, Nibble, DigitPosition;
    DigitsOfText(u, i);
    ValueOfDigits(u[i]);
  }

  lemma ValueOfDigits(b: bv8)
    ensures Nibble(High(b)) as int * 16 + Nibble(Low(b)) as int == b as int
  {
    HighNibble(b);
    LowNibble(b);
    NibbleOfDigit(b >> 4);
    NibbleOfDigit(b & 0x0F);
    hide Nibble, HexDigit;
    SplitByte(b);
  }

  lemma SplitByte(b: bv8)
    ensures (b >> 4) as int * 16 + (b & 0x0F) as int == b as int
  {
  }

  /** Neither dashes nor digits are checked on reading: any characters of the table, taken in pairs,
      are read, up to sixteen bytes; those that are no digits count as 0. */
  lemma {:induction false} AnyCharactersAreRead(t: string, j: nat)
    requires j <= 16 && |t| % 2 == 0 && '-' !in t && forall k | 0 <= k < |t| :: InTable(t[k])
    ensures Readable(t, j)
    ensures |BytesFrom(t, j)| == if |t| / 2 < 16 - j then |t| / 2 else 16 - j
    ensures forall k | 0 <= k < |BytesFrom(t, j)| :: BytesFrom(t, j)[k] == Join(Nibble(t[2 * k]), Nibble(t[2 * k + 1]))
    decreases 16 - j
  {
    hide Join, Nibble, InTable;
    if j < 16 && t != [] {
      assert t[0] != '-' && SkipDash(t) == t;
      AnyCharactersAreRead(t[2..], j + 1);
      assert BytesFrom(t, j) == [Join(Nibble(t[0]), Nibble(t[1]))] + BytesFrom(t[2..], j + 1);
    }
  }

  lemma SliceOfHead<T>(a: seq<T>, b: seq<T>)
    ensures (a + b)[0..|a|] == a
  {
  }

  /** Writes the text of a UUID and its terminator. */
  method ToString(u: Bytes, strBuf: array<char>)
    requires strBuf.Length >= 37
    modifies strBuf
    ensures strBuf[..36] == Text(u) && strBuf[36] == '\0'
    ensures strBuf[37..] == old(strBuf[37..])
  {
    hide High, Low, Position, TextFrom;
    var p := 0;
    ghost var text := Text(u);
    TextLength(u, 0);
    PositionEnds();
    for i := 0 to 16
      invariant p == Position(i) <= 36 == |text|
      invariant strBuf[..p] == text[..p]
      invariant strBuf[37..] == old(strBuf[37..])
    {
      ghost var done := strBuf[..p];
      PositionStep(i);
      PieceOfText(u, 0, i);
      assert text[..Position(i + 1)] == text[..p] + text[p..Position(i + 1)];
      if i == 4 || i == 6 || i == 8 || i == 10 {
        strBuf[p] := '-';
        p := p + 1;
      }
      strBuf[p] := High(u[i]);
      strBuf[p + 1] := Low(u[i]);
      p := p + 2;
      assert strBuf[..p] == done + Piece(u[i], i);
    }
    strBuf[p] := '\0';
  }

  lemma PositionEnds()
    ensures Position(0) == 0 && Position(16) == 36
  {
  }

  /** One step of reading, at position `pos` of the whole string. */
  lemma ReadStep(t: string, pos: nat, j: nat)
    requires pos < |t| && j < 16 && Readable(t[pos..], j)
    ensures var q := if t[pos] == '-' then pos + 1 else pos;
            && q + 2 <= |t| && Readable(t[q + 2..], j + 1)
            && BytesFrom(t[pos..], j) == [Join(Nibble(t[q]), Nibble(t[q + 1]))] + BytesFrom(t[q + 2..], j + 1)
  {
    hide Join, Nibble;
    var q := if t[pos] == '-' then pos + 1 else pos;
    assert SkipDash(t[pos..]) == t[q..];
    assert t[q..][2..] == t[q + 2..];
  }

  lemma ReadEnds(t: string, j: nat)
    requires j >= 16 || t == []
    ensures Readable(t, j) && BytesFrom(t, j) == []
  {
  }

  /** Reads a UUID. A string that ends before sixteen bytes were read is an error, and the
      destination is then zeroed; nothing else is checked. */
  method FromString(t: string, uuid: array<bv8>) returns (status: Status)
    requires uuid.Length == 16 && '\0' !in t && Readable(t, 0)
    modifies uuid
    ensures status == Ok <==> |BytesFrom(t, 0)| == 16
    ensures uuid[..] == if status == Ok then BytesFrom(t, 0) else Repeat16(0)
  {
    hide Join, Nibble, BytesFrom, Readable;
    var pos, i, j := 0, 0, 0;
    ghost var out := BytesFrom(t, 0);
    assert t[0..] == t;
    while j < 16 && pos < |t|
      invariant j <= 16 && pos <= |t| && i == 2 * j && Readable(t[pos..], j)
      invariant j <= |out| && out[j..] == BytesFrom(t[pos..], j) && uuid[..j] == out[..j]
    {
      ReadStep(t, pos, j);
      if t[pos] == '-' {
        pos := pos + 1;
      }
      uuid[j] := Join(Nibble(t[pos]), Nibble(t[pos + 1]));
      pos := pos + 2;
      i, j := i + 2, j + 1;
      assert uuid[j - 1] == out[j - 1..][0] && out[j - 1..][1..] == out[j..];
    }
    ReadEnds(t[pos..], j);
    if i != 32 {
      forall k | 0 <= k < 16 {
        uuid[k] := 0;
      }
      return InParameter;
    }
    return Ok;
  }

  /** Reading back what was written: the destination ends up with the same bytes. */
  method RoundTrip(u: Bytes, strBuf: array<char>, uuid: array<bv8>) returns (status: Status)
    requires strBuf.Length >= 37 && uuid.Length == 16
    modifies strBuf, uuid
    ensures status == Ok && uuid[..] == u
  {
    ToString(u, strBuf);
    BytesOfText(u, 0);
    TextHasNoTerminator(u, 0);
    status := FromString(strBuf[..36], uuid);
  }

  lemma {:induction false} TextHasNoTerminator(bytes: seq<bv8>, i: nat)
    ensures '\0' !in TextFrom(bytes, i)
  {
    hide High, Low;
    if bytes != [] {
      ByteOfDigits(bytes[0]);
      TextHasNoTerminator(bytes[1..], i + 1);
    }
  }

  // ----- generation

  /** The eight bytes of a word as they lie in memory, least significant first. */
  function WordBytes(x: bv64): (b: seq<bv8>)
    ensures |b| == 8
  {
    [(x & 0xFF) as bv8, ((x >> 8) & 0xFF) as bv8, ((x >> 16) & 0xFF) as bv8, ((x >> 24) & 0xFF) as bv8,
     ((x >> 32) & 0xFF) as bv8, ((x >> 40) & 0xFF) as bv8, ((x >> 48) & 0xFF) as bv8, ((x >> 56) & 0xFF) as bv8]
  }

  /** Sets the version and variant bits. */
  function Stamp(b: Bytes): Bytes {
    b[6 := 0x40 | (b[6] & 0x0F)][8 := 0x80 | (b[8] & 0x3F)]
  }

  lemma StampedNibbles(b: bv8)
    ensures (0x40 | (b & 0x0F)) >> 4 == 4
    ensures var n := (0x80 | (b & 0x3F)) >> 4; n == 8 || n == 9 || n == 10 || n == 11
  {
  }

  /** Main result on generation: every generated UUID prints with the version digit 4 and a
      variant digit of section 5.4 of RFC 9562; all other bits are as drawn. */
  lemma StampedText(b: Bytes)
    ensures |Text(Stamp(b))| == 36 && Text(Stamp(b))[14] == '4' && Text(Stamp(b))[19] in {'8', '9', 'a', 'b'}
    ensures forall k | 0 <= k < 16 && k != 6 && k != 8 :: Stamp(b)[k] == b[k]
    ensures Stamp(b)[6] & 0x0F == b[6] & 0x0F && Stamp(b)[8] & 0x3F == b[8] & 0x3F
    ensures Stamp(Stamp(b)) == Stamp(b)
  {
    var text := Text(Stamp(b));
    hide High, Low;
    TextLength(Stamp(b), 0);
    PieceOfText(Stamp(b), 0, 6);
    PieceOfText(Stamp(b), 0, 8);
    assert text[14] == text[13..16][1] && text[19] == text[18..21][1];
    StampedDigits(b[6]);
    StampedDigits(b[8]);
    StampKeepsBits(b[6], b[8]);
  }

  lemma StampedDigits(b: bv8)
    ensures High(0x40 | (b & 0x0F)) == '4'
    ensures High(0x80 | (b & 0x3F)) in {'8', '9', 'a', 'b'}
  {
    StampedNibbles(b);
  }

  lemma StampKeepsBits(x: bv8, y: bv8)
    ensures (0x40 | (x & 0x0F)) & 0x0F == x & 0x0F
    ensures (0x80 | (y & 0x3F)) & 0x3F == y & 0x3F
    ensures 0x40 | ((0x40 | (x & 0x0F)) & 0x0F) == 0x40 | (x & 0x0F)
    ensures 0x80 | ((0x80 | (y & 0x3F)) & 0x3F) == 0x80 | (y & 0x3F)
  {
  }

  /** Draws two numbers and stamps them. */
  method Generate(g: Xoshiro.Generator) returns (u: Bytes)
    modifies g
    ensures u == Stamp(WordBytes(Xoshiro.Output(old(g.Current())))
                       + WordBytes(Xoshiro.Output(Xoshiro.Step(old(g.Current())))))
    ensures g.Current() == Xoshiro.After(old(g.Current()), 2)
  {
    hide Xoshiro.Step, Xoshiro.Output, WordBytes;
    ghost var s := g.Current();
    assert Xoshiro.After(s, 1) == Xoshiro.Step(s);
    assert Xoshiro.After(s, 2) == Xoshiro.Step(Xoshiro.After(s, 1));
    var first := g.Next();
    var second := g.Next();
    u := Stamp(WordBytes(first) + WordBytes(second));
  }

  // ----- comparison

  /** Eight bytes read as one 64-bit word, least significant byte first. */
  function Word(b0: bv8, b1: bv8, b2: bv8, b3: bv8, b4: bv8, b5: bv8, b6: bv8, b7: bv8): bv64 {
    (b0 as bv64) | ((b1 as bv64) << 8) | ((b2 as bv64) << 16) | ((b3 as bv64) << 24)
    | ((b4 as bv64) << 32) | ((b5 as bv64) << 40) | ((b6 as bv64) << 48) | ((b7 as bv64) << 56)
  }

  function WordAt(u: Bytes, k: nat): bv64
    requires k < 2
  {
    Word(u[8 * k], u[8 * k + 1], u[8 * k + 2], u[8 * k + 3], u[8 * k + 4], u[8 * k + 5], u[8 * k + 6], u[8 * k + 7])
  }

  lemma WordIsInjective(a0: bv8, a1: bv8, a2: bv8, a3: bv8, a4: bv8, a5: bv8, a6: bv8, a7: bv8,
                        b0: bv8, b1: bv8, b2: bv8, b3: bv8, b4: bv8, b5: bv8, b6: bv8, b7: bv8)
    requires Word(a0, a1, a2, a3, a4, a5, a6, a7) == Word(b0, b1, b2, b3, b4, b5, b6, b7)
    ensures a0 == b0 && a1 == b1 && a2 == b2 && a3 == b3 && a4 == b4 && a5 == b5 && a6 == b6 && a7 == b7
  {
  }

  predicate IsEqual(u: Bytes, v: Bytes) {
    WordAt(u, 0) == WordAt(v, 0) && WordAt(u, 1) == WordAt(v, 1)
  }

  lemma HalfIsInjective(u: Bytes, v: Bytes, k: nat)
    requires k < 2 && WordAt(u, k) == WordAt(v, k)
    ensures u[8 * k..8 * k + 8] == v[8 * k..8 * k + 8]
  {
    hide Word;
    var i := 8 * k;
    WordIsInjective(u[i], u[i + 1], u[i + 2], u[i + 3], u[i + 4], u[i + 5], u[i + 6], u[i + 7],
                    v[i], v[i + 1], v[i + 2], v[i + 3], v[i + 4], v[i + 5], v[i + 6], v[i + 7]);
  }

  /** Comparing two 64-bit words decides whether all sixteen bytes are the same. */
  lemma IsEqualIffSame(u: Bytes, v: Bytes)
    ensures IsEqual(u, v) <==> u == v
  {
    hide WordAt;
    if IsEqual(u, v) {
      HalfIsInjective(u, v, 0);
      HalfIsInjective(u, v, 1);
      assert u == u[..8] + u[8..16] && v == v[..8] + v[8..16];
    }
  }

  /** The bytes of a word make up the word again, so a generated UUID carries all bits drawn but
      those of the stamp. */
  lemma WordOfBytes(x: bv64)
    ensures var b := WordBytes(x); Word(b[0], b[1], b[2], b[3], b[4], b[5], b[6], b[7]) == x
  {
  }

  lemma DrawnWords(x: bv64, y: bv64)
    ensures WordAt(WordBytes(x) + WordBytes(y), 0) == x && WordAt(WordBytes(x) + WordBytes(y), 1) == y
  {
    WordOfBytes(x);
    WordOfBytes(y);
    hide Word, WordBytes;
  }
}
