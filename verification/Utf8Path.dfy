/** Walking over UTF-8 text character by character, and rewriting path separators on the way. */
module Utf8Path {
  import opened Basics

  type Byte = x: int | 0 <= x < 0x100

  /** The lookup table of character sizes by lead byte; 0 for a byte that cannot lead. */
  function CharSize(lead: Byte): nat {
    if lead < 0x80 then 1
    else if lead < 0xC2 then 0
    else if lead < 0xE0 then 2
    else if lead < 0xF0 then 3
    else if lead < 0xF5 then 4
    else 0
  }

  /** Index with which a byte is looked up. A plain `char` is signed on some platforms, the ones
      the project is built for among them; bytes from 0x80 on then give negative indices. */
  function TableIndex(b: Byte, signed: bool): int {
    if signed && b >= 0x80 then b - 0x100 else b
  }

  predicate InTable(b: Byte, signed: bool) {
    0 <= TableIndex(b, signed) < 0x100
  }

  /** The lookup of the code. */
  function Lookup(b: Byte, signed: bool): (size: nat)
    requires InTable(b, signed)
    ensures size == CharSize(b)
  {
    CharSize(TableIndex(b, signed))
  }

  predicate IsTail(b: Byte) {
    0x80 <= b <= 0xBF
  }

  /** UTF8-char of section 4 of RFC 3629. */
  predicate IsChar(c: seq<Byte>) {
    || (|c| == 1 && c[0] < 0x80)
    || (|c| == 2 && 0xC2 <= c[0] <= 0xDF && IsTail(c[1]))
    || (|c| == 3 && IsTail(c[2])
        && (|| (c[0] == 0xE0 && 0xA0 <= c[1] <= 0xBF)
            || (0xE1 <= c[0] <= 0xEC && IsTail(c[1]))
            || (c[0] == 0xED && 0x80 <= c[1] <= 0x9F)
            || (0xEE <= c[0] <= 0xEF && IsTail(c[1]))))
    || (|c| == 4 && IsTail(c[2]) && IsTail(c[3])
        && (|| (c[0] == 0xF0 && 0x90 <= c[1] <= 0xBF)
            || (0xF1 <= c[0] <= 0xF3 && IsTail(c[1]))
            || (c[0] == 0xF4 && 0x80 <= c[1] <= 0x8F)))
  }

  /** Characters of a NUL-terminated text, without the NUL. */
  ghost predicate IsText(chars: seq<seq<Byte>>) {
    forall k | 0 <= k < |chars| :: IsChar(chars[k]) && chars[k][0] != 0
  }

  function Flatten(chars: seq<seq<Byte>>): seq<Byte> {
    if chars == [] then [] else chars[0] + Flatten(chars[1..])
  }

  /** Bytes that are some text encoded in UTF-8. */
  ghost predicate IsUtf8(s: seq<Byte>) {
    exists chars :: IsText(chars) && Flatten(chars) == s
  }

  /** The buffer holds the text, then a NUL; what follows does not matter. */
  ghost predicate Holds(buf: seq<Byte>, chars: seq<seq<Byte>>) {
    IsText(chars) && Flatten(chars) + [0] <= buf
  }

  // ----- the table

  /** The table tells the length of every character from its first byte, and it accepts exactly
      the bytes that lead a character. */
  lemma TableIsExact(b: Byte)
    ensures forall c | IsChar(c) && c[0] == b :: |c| == CharSize(b)
    ensures CharSize(b) > 0 <==> exists c :: IsChar(c) && c[0] == b
  {
    var c: seq<Byte> :=
      if b < 0x80 then [b] else if b < 0xE0 then [b, 0x80]
      else if b < 0xF0 then [b, if b == 0xE0 then 0xA0 else 0x80, 0x80]
      else [b, if b == 0xF0 then 0x90 else 0x80, 0x80, 0x80];
    if CharSize(b) > 0 {
      assert IsChar(c) && c[0] == b;
    }
  }

  lemma OnlySingleBytesAreAscii(c: seq<Byte>)
    requires IsChar(c)
    ensures |c| == CharSize(c[0]) > 0
    ensures forall k | 0 <= k < |c| :: c[k] < 0x80 <==> |c| == 1
  {
  }

  // ----- walking

  /** The walk of at most `off` characters from `p` does not leave the buffer. */
  predicate StaysInside(buf: seq<Byte>, p: nat, off: nat)
    decreases off
  {
    p < |buf| && (buf[p] == 0 || off == 0 || StaysInside(buf, p + CharSize(buf[p]), off - 1))
  }

  /** Where that walk ends. */
  function Walk(buf: seq<Byte>, p: nat, off: nat): (r: nat)
    requires StaysInside(buf, p, off)
    ensures p <= r < |buf|
    decreases off
  {
    if buf[p] == 0 || off == 0 then p else Walk(buf, p + CharSize(buf[p]), off - 1)
  }

  /** Where character `k` begins. */
  function Boundary(chars: seq<seq<Byte>>, k: nat): nat
    requires k <= |chars|
  {
    |Flatten(chars[..k])|
  }

  lemma {:induction false} FlattenOfConcat(a: seq<seq<Byte>>, b: seq<seq<Byte>>)
    ensures Flatten(a + b) == Flatten(a) + Flatten(b)
  {
    if a == [] {
      assert a + b == b;
    } else {
      FlattenOfConcat(a[1..], b);
      assert (a + b)[1..] == a[1..] + b;
      ConcatIsAssociative(a[0], Flatten(a[1..]), Flatten(b));
    }
  }

  lemma FlattenOfOne(c: seq<Byte>)
    ensures Flatten([c]) == c
  {
    assert [c][1..] == [];
    assert Flatten([]) == [];
    assert c + [] == c;
  }

  /** Text split around character `k`. */
  lemma SplitAt(chars: seq<seq<Byte>>, k: nat)
    requires k < |chars|
    ensures Flatten(chars) == Flatten(chars[..k]) + chars[k] + Flatten(chars[k + 1..])
    ensures Boundary(chars, k + 1) == Boundary(chars, k) + |chars[k]|
    ensures Boundary(chars, k + 1) <= |Flatten(chars)|
  {
    hide Flatten;
    assert chars == chars[..k] + [chars[k]] + chars[k + 1..];
    assert chars[..k + 1] == chars[..k] + [chars[k]];
    FlattenOfConcat(chars[..k] + [chars[k]], chars[k + 1..]);
    FlattenOfConcat(chars[..k], [chars[k]]);
    FlattenOfOne(chars[k]);
  }

  /** What the buffer shows at the boundary of character `k`. */
  lemma AtBoundary(buf: seq<Byte>, chars: seq<seq<Byte>>, k: nat)
    requires Holds(buf, chars) && k <= |chars|
    ensures Boundary(chars, k) < |buf|
    ensures buf[Boundary(chars, k)] == 0 <==> k == |chars|
    ensures k == |chars| ==> Boundary(chars, k) == |Flatten(chars)|
    ensures k < |chars| ==>
      var p, q := Boundary(chars, k), Boundary(chars, k + 1);
      p <= q < |buf| && chars[k] == buf[p..q] && q == p + CharSize(buf[p]) && CharSize(buf[p]) == |chars[k]|
  {
    hide Flatten, IsChar, CharSize;
    var text := Flatten(chars);
    assert buf[..|text| + 1] == text + [0];
    if k == |chars| {
      assert chars[..k] == chars;
      assert buf[|text|] == (text + [0])[|text|];
    } else {
      SplitAt(chars, k);
      OnlySingleBytesAreAscii(chars[k]);
      MiddleOf(buf, Flatten(chars[..k]), chars[k], Flatten(chars[k + 1..]) + [0]);
      ConcatIsAssociative(Flatten(chars[..k]) + chars[k], Flatten(chars[k + 1..]), [0]);
    }
  }

  lemma MiddleOf(buf: seq<Byte>, a: seq<Byte>, b: seq<Byte>, c: seq<Byte>)
    requires a + b + c <= buf
    ensures b == buf[|a|..|a| + |b|]
    ensures b != [] ==> b[0] == buf[|a|]
  {
    assert b == (a + b + c)[|a|..|a| + |b|];
  }

  /** Main result on the walk: on any NUL-terminated UTF-8 text it stays inside, and advances by
      whole characters up to the end of the text. */
  lemma {:induction false} WalkCountsCharacters(buf: seq<Byte>, chars: seq<seq<Byte>>, k: nat, off: nat)
    requires Holds(buf, chars) && k <= |chars|
    ensures StaysInside(buf, Boundary(chars, k), off)
    ensures Walk(buf, Boundary(chars, k), off) == Boundary(chars, if k + off <= |chars| then k + off else |chars|)
    decreases off
  {
    hide Flatten, CharSize, Boundary, Holds;
    AtBoundary(buf, chars, k);
    if k < |chars| && off > 0 {
      WalkCountsCharacters(buf, chars, k + 1, off - 1);
    }
  }

  /** Whether all lookups of that walk are inside the table. */
  predicate LookupsInTable(buf: seq<Byte>, p: nat, off: nat, signed: bool)
    requires StaysInside(buf, p, off)
    decreases off
  {
    buf[p] == 0 || off == 0
    || (InTable(buf[p], signed) && LookupsInTable(buf, p + CharSize(buf[p]), off - 1, signed))
  }

  /** Where `char` is signed, characters `from..to` are single bytes. */
  predicate Legible(chars: seq<seq<Byte>>, from: nat, to: nat, signed: bool) {
    signed ==> forall k | from <= k < to && k < |chars| :: |chars[k]| == 1
  }

  /** Main result on the table: the lookups of a walk over a text are inside the table if and only
      if `char` is unsigned or all characters walked over are single bytes. */
  lemma {:induction false} LookupsInTableIff(buf: seq<Byte>, chars: seq<seq<Byte>>, k: nat, off: nat, signed: bool)
    requires Holds(buf, chars) && k <= |chars|
    ensures StaysInside(buf, Boundary(chars, k), off)
    ensures LookupsInTable(buf, Boundary(chars, k), off, signed) <==> Legible(chars, k, k + off, signed)
    decreases off
  {
    WalkCountsCharacters(buf, chars, k, off);
    LeadIsInTableIff(buf, chars, k, signed);
    hide Flatten, CharSize, Boundary, Holds, InTable;
    AtBoundary(buf, chars, k);
    if k < |chars| && off > 0 {
      LookupsInTableIff(buf, chars, k + 1, off - 1, signed);
    }
  }

  lemma LeadIsInTableIff(buf: seq<Byte>, chars: seq<seq<Byte>>, k: nat, signed: bool)
    requires Holds(buf, chars) && k < |chars| + 1
    ensures Boundary(chars, k) < |buf|
    ensures k < |chars| ==> (InTable(buf[Boundary(chars, k)], signed) <==> !signed || |chars[k]| == 1)
  {
    AtBoundary(buf, chars, k);
    hide Flatten, Boundary;
    if k < |chars| {
      OnlySingleBytesAreAscii(chars[k]);
      assert chars[k][0] == buf[Boundary(chars, k)];
    }
  }

  /** A text on which a signed `char` fails at once: U+00E9 is C3 A9, and C3 is looked up at -61. */
  lemma SignedLookupLeavesTable()
    ensures Holds([0xC3, 0xA9, 0], [[0xC3, 0xA9]]) && TableIndex(0xC3, true) == -61
    ensures StaysInside([0xC3, 0xA9, 0], 0, 1) && !LookupsInTable([0xC3, 0xA9, 0], 0, 1, true)
  {
    FlattenOfOne([0xC3, 0xA9]);
    assert [0xC3, 0xA9] + [0] == [0xC3, 0xA9, 0];
  }

  /** On a byte that leads no character the walk gets stuck: however many characters it is asked
      to skip, it stays where it is. Such a byte is the only obstacle. */
  lemma {:induction false} StuckIff(buf: seq<Byte>, p: nat, off: nat)
    requires off > 0 && StaysInside(buf, p, off) && buf[p] != 0
    ensures Walk(buf, p, off) == p <==> CharSize(buf[p]) == 0
    decreases off
  {
    var next := p + CharSize(buf[p]);
    if CharSize(buf[p]) == 0 && off > 1 {
      StuckIff(buf, p, off - 1);
    }
  }

  /** The bytes of a text determine its characters. */
  lemma {:induction false} CharactersAreUnique(a: seq<seq<Byte>>, b: seq<seq<Byte>>)
    requires IsText(a) && IsText(b) && Flatten(a) == Flatten(b)
    ensures a == b
  {
    if a == [] || b == [] {
      assert a == b;
    } else {
      hide IsChar, CharSize;
      OnlySingleBytesAreAscii(a[0]);
      OnlySingleBytesAreAscii(b[0]);
      FirstOfEqual(a[0], Flatten(a[1..]), b[0], Flatten(b[1..]));
      CharactersAreUnique(a[1..], b[1..]);
      assert a == [a[0]] + a[1..] && b == [b[0]] + b[1..];
    }
  }

  lemma FirstOfEqual(a: seq<Byte>, s: seq<Byte>, b: seq<Byte>, t: seq<Byte>)
    requires a + s == b + t && a != [] && b != []
    ensures a[0] == b[0]
    ensures |a| == |b| ==> a == b && s == t
  {
    assert (a + s)[0] == (b + t)[0];
    if |a| == |b| {
      assert a == (a + s)[..|a|] == b;
      assert s == (a + s)[|a|..] == t;
    }
  }

  method Goto(buf: array<Byte>, start: nat, count: nat, signed: bool) returns (p: nat)
    requires StaysInside(buf[..], start, count) && LookupsInTable(buf[..], start, count, signed)
    ensures StaysInside(buf[..], start, count) && p == Walk(buf[..], start, count)
  {
    var off := count;
    p := start;
    while buf[p] != 0 && off > 0
      invariant StaysInside(buf[..], p, off) && Walk(buf[..], p, off) == Walk(buf[..], start, count)
      invariant LookupsInTable(buf[..], p, off, signed)
      decreases off
    {
      p := p + Lookup(buf[p], signed);
      off := off - 1;
    }
  }

  lemma WalkBegins(buf: seq<Byte>, chars: seq<seq<Byte>>)
    requires Holds(buf, chars)
    ensures Boundary(chars, 0) == 0 < |buf|
  {
    assert chars[..0] == [];
  }

  /** Where the walk stands one character later. */
  lemma NextBoundary(buf: seq<Byte>, chars: seq<seq<Byte>>, k: nat)
    requires Holds(buf, chars) && k < |chars|
    ensures Boundary(chars, k) < |buf| && Boundary(chars, k + 1) < |buf|
    ensures Boundary(chars, k + 1) == Boundary(chars, k) + CharSize(buf[Boundary(chars, k)])
    ensures buf[Boundary(chars, k + 1)] == 0 <==> k + 1 == |chars|
  {
    hide Holds, CharSize, Boundary;
    AtBoundary(buf, chars, k);
    AtBoundary(buf, chars, k + 1);
  }

  /** Counts code points, in 32 bits. */
  method Strlen(buf: array<Byte>, ghost chars: seq<seq<Byte>>, signed: bool) returns (currLen: nat)
    requires Holds(buf[..], chars) && Legible(chars, 0, |chars|, signed)
    ensures currLen == |chars| % UINT32_RANGE
  {
    currLen := 0;
    var p := 0;
    ghost var k := 0;
    hide Holds, CharSize, Flatten, InTable;
    WalkBegins(buf[..], chars);
    AtBoundary(buf[..], chars, 0);
    hide Boundary;
    while buf[p] != 0
      invariant k <= |chars| && p == Boundary(chars, k) < buf.Length && currLen == k % UINT32_RANGE
      invariant buf[p] == 0 <==> k == |chars|
      decreases |chars| - k
    {
      NextBoundary(buf[..], chars, k);
      LeadIsInTableIff(buf[..], chars, k, signed);
      p := p + Lookup(buf[p], signed);
      currLen := (currLen + 1) % UINT32_RANGE;
      k := k + 1;
    }
  }

  /** The next character, or nothing at the end of the text. */
  method Iterate(buf: array<Byte>, p: nat, signed: bool) returns (next: Option<nat>)
    requires StaysInside(buf[..], p, 1) && (buf[p] != 0 ==> InTable(buf[p], signed))
    ensures next == if buf[p] == 0 then None else Some(p + CharSize(buf[p]))
  {
    if buf[p] == 0 {
      return None;
    }
    var q := Goto(buf, p, 1, signed);
    return Some(q);
  }

  /** Byte range of a substring view. */
  method CalcSubstr(buf: array<Byte>, start: nat, maxCount: nat, ghost chars: seq<seq<Byte>>, signed: bool)
    returns (first: nat, size: nat)
    requires Holds(buf[..], chars) && maxCount > 0 && Legible(chars, 0, start + maxCount - 1, signed)
    ensures var from := if start <= |chars| then start else |chars|;
            var to := if start + maxCount - 1 <= |chars| then start + maxCount - 1 else |chars|;
            from <= to && first + size <= buf.Length && buf[first..first + size] == Flatten(chars[from..to])
  {
    hide Holds, StaysInside, Walk, LookupsInTable, CharSize, IsText;
    ghost var from := if start <= |chars| then start else |chars|;
    ghost var to := if start + maxCount - 1 <= |chars| then start + maxCount - 1 else |chars|;
    assert Boundary(chars, 0) == 0 by {
      assert chars[..0] == [];
    }
    hide Boundary, Flatten;
    WalkCountsCharacters(buf[..], chars, 0, start);
    LookupsInTableIff(buf[..], chars, 0, start, signed);
    first := Goto(buf, 0, start, signed);
    WalkCountsCharacters(buf[..], chars, from, maxCount - 1);
    LookupsInTableIff(buf[..], chars, from, maxCount - 1, signed);
    var last := Goto(buf, first, maxCount - 1, signed);
    BytesBetween(buf[..], chars, from, to);
    size := last - first;
  }

  lemma BytesBetween(buf: seq<Byte>, chars: seq<seq<Byte>>, from: nat, to: nat)
    requires Holds(buf, chars) && from <= to <= |chars|
    ensures Boundary(chars, from) <= Boundary(chars, to) < |buf|
    ensures buf[Boundary(chars, from)..Boundary(chars, to)] == Flatten(chars[from..to])
  {
    hide Flatten, IsText;
    assert chars == chars[..to] + chars[to..] && chars[..to] == chars[..from] + chars[from..to];
    FlattenOfConcat(chars[..to], chars[to..]);
    FlattenOfConcat(chars[..from], chars[from..to]);
    ConcatIsAssociative(Flatten(chars[..to]), Flatten(chars[to..]), [0]);
    MiddleOf(buf, Flatten(chars[..from]), Flatten(chars[from..to]), Flatten(chars[to..]) + [0]);
  }

  // ----- path separators

  predicate IsSeparator(b: Byte) {
    b == '/' as int || b == '\\' as int
  }

  function ReplaceByte(b: Byte, sep: Byte): Byte {
    if IsSeparator(b) then sep else b
  }

  /** The separators are '/', 2F, and '\\', 5C; no other byte is replaced. */
  lemma ReplacedBytes(sep: Byte)
    ensures forall b: Byte :: ReplaceByte(b, sep) == if b == 0x2F || b == 0x5C then sep else b
  {
    assert '/' as int == 0x2F && '\\' as int == 0x5C;
  }

  /** All separators replaced, byte by byte. */
  function Replace(s: seq<Byte>, sep: Byte): (r: seq<Byte>)
    ensures |r| == |s|
  {
    seq(|s|, k requires 0 <= k < |s| => ReplaceByte(s[k], sep))
  }

  /** All separators replaced, character by character. */
  function ReplaceEach(chars: seq<seq<Byte>>, sep: Byte): (r: seq<seq<Byte>>)
    ensures |r| == |chars|
  {
    seq(|chars|, k requires 0 <= k < |chars| => Replace(chars[k], sep))
  }

  /** A separator the platform may use: ASCII and not NUL. */
  predicate IsNative(sep: Byte) {
    0 < sep < 0x80
  }

  lemma ReplaceOfConcat(a: seq<Byte>, b: seq<Byte>, sep: Byte)
    ensures Replace(a + b, sep) == Replace(a, sep) + Replace(b, sep)
  {
  }

  lemma {:induction false} ReplaceOfFlatten(chars: seq<seq<Byte>>, sep: Byte)
    ensures Flatten(ReplaceEach(chars, sep)) == Replace(Flatten(chars), sep)
  {
    if chars == [] {
      assert ReplaceEach(chars, sep) == [];
    } else {
      ReplaceOfFlatten(chars[1..], sep);
      assert ReplaceEach(chars, sep)[1..] == ReplaceEach(chars[1..], sep);
      ReplaceOfConcat(chars[0], Flatten(chars[1..]), sep);
    }
  }

  /** A character with its separators replaced is a character, and the other way round; only the
      first byte can change. */
  lemma CharsStayChars(c: seq<Byte>, sep: Byte)
    requires IsNative(sep)
    ensures IsChar(c) && c[0] != 0 <==> IsChar(Replace(c, sep)) && Replace(c, sep)[0] != 0
    ensures IsChar(c) ==> Replace(c, sep) == [ReplaceByte(c[0], sep)] + c[1..]
  {
  }

  /** Main result on validity: replacing the separators of any NUL-free bytes yields UTF-8 if and
      only if the bytes were UTF-8, with as many characters. */
  lemma ReplaceKeepsUtf8(s: seq<Byte>, sep: Byte)
    requires IsNative(sep)
    ensures IsUtf8(Replace(s, sep)) <==> IsUtf8(s)
  {
    hide Replace, IsNative;
    if IsUtf8(s) {
      var chars :| IsText(chars) && Flatten(chars) == s;
      ReplaceEachKeepsText(chars, sep);
    }
    if IsUtf8(Replace(s, sep)) {
      var chars :| IsText(chars) && Flatten(chars) == Replace(s, sep);
      var original := Regroup(s, chars, sep);
    }
  }

  lemma ReplaceEachKeepsText(chars: seq<seq<Byte>>, sep: Byte)
    requires IsNative(sep) && IsText(chars)
    ensures IsText(ReplaceEach(chars, sep)) && Flatten(ReplaceEach(chars, sep)) == Replace(Flatten(chars), sep)
    ensures |ReplaceEach(chars, sep)| == |chars|
  {
    ReplaceOfFlatten(chars, sep);
    hide Replace, IsNative, Flatten;
    forall k | 0 <= k < |chars|
      ensures IsChar(Replace(chars[k], sep)) && Replace(chars[k], sep)[0] != 0
    {
      hide IsChar;
      CharsStayChars(chars[k], sep);
    }
  }

  /** Characters of the bytes before the replacement. */
  lemma {:induction false} Regroup(s: seq<Byte>, chars: seq<seq<Byte>>, sep: Byte) returns (original: seq<seq<Byte>>)
    requires IsNative(sep) && IsText(chars) && Flatten(chars) == Replace(s, sep)
    ensures IsText(original) && Flatten(original) == s && |original| == |chars|
    decreases |chars|
  {
    if chars == [] {
      original := [];
      assert |Replace(s, sep)| == 0;
    } else {
      var n := |chars[0]|;
      assert |Replace(s, sep)| == n + |Flatten(chars[1..])|;
      assert s == s[..n] + s[n..];
      hide IsChar, Replace, IsNative;
      ReplaceOfConcat(s[..n], s[n..], sep);
      OnlySingleBytesAreAscii(chars[0]);
      FirstOfReplaced(chars[0], Flatten(chars[1..]), s[..n], s[n..], sep);
      CharsStayChars(s[..n], sep);
      var rest := Regroup(s[n..], chars[1..], sep);
      original := [s[..n]] + rest;
      assert original[1..] == rest;
    }
  }

  lemma FirstOfReplaced(a: seq<Byte>, t: seq<Byte>, b: seq<Byte>, u: seq<Byte>, sep: Byte)
    requires |a| == |b| && a + t == Replace(b, sep) + Replace(u, sep)
    ensures a == Replace(b, sep) && t == Replace(u, sep)
  {
    assert a == (a + t)[..|a|] && Replace(b, sep) == (Replace(b, sep) + Replace(u, sep))[..|a|];
    assert t == (a + t)[|a|..] && Replace(u, sep) == (Replace(b, sep) + Replace(u, sep))[|a|..];
  }

  /** A second rewrite changes nothing. */
  lemma ReplaceIsIdempotent(s: seq<Byte>, sep: Byte, again: Byte)
    ensures Replace(Replace(s, sep), sep) == Replace(s, sep)
    ensures !IsSeparator(sep) ==> Replace(Replace(s, sep), again) == Replace(s, sep)
    ensures IsSeparator(sep) ==> Replace(Replace(s, sep), again) == Replace(s, again)
  {
  }

  /** One step of the rewrite. The size of a character is the same before and after its first byte
      is replaced, and none of its other bytes is a separator. */
  lemma StepOver(buf: seq<Byte>, chars: seq<seq<Byte>>, k: nat, sep: Byte)
    requires Holds(buf, chars) && k < |chars| && IsNative(sep)
    ensures var p, q := Boundary(chars, k), Boundary(chars, k + 1);
            && p < q < |buf| && buf[p] != 0 && ReplaceByte(buf[p], sep) != 0
            && q == p + CharSize(ReplaceByte(buf[p], sep))
            && forall i | p < i < q :: !IsSeparator(buf[i])
  {
    AtBoundary(buf, chars, k);
    OnlySingleBytesAreAscii(chars[k]);
    hide Boundary, Flatten, IsChar;
    var p, q := Boundary(chars, k), Boundary(chars, k + 1);
    forall i | p < i < q
      ensures !IsSeparator(buf[i])
    {
      assert buf[i] == chars[k][i - p];
    }
  }

  lemma RewriteIsComplete(was: seq<Byte>, now: seq<Byte>, chars: seq<seq<Byte>>, sep: Byte)
    requires Holds(was, chars) && IsNative(sep) && |now| == |was|
    requires |Flatten(chars)| < |was|
    requires forall i | 0 <= i < |Flatten(chars)| :: now[i] == ReplaceByte(was[i], sep)
    requires forall i | |Flatten(chars)| <= i < |was| :: now[i] == was[i]
    ensures var n := |Flatten(chars)|; now[..n] == Replace(was[..n], sep) && now[n..] == was[n..]
    ensures Holds(now, ReplaceEach(chars, sep))
  {
    ReplaceEachKeepsText(chars, sep);
    hide Flatten, IsText, ReplaceEach;
    var text := Flatten(chars);
    assert was[..|text| + 1] == text + [0];
    assert was[..|text|] == (text + [0])[..|text|] == text;
    assert was[|text|] == (text + [0])[|text|];
    assert now[..|text| + 1] == Replace(text, sep) + [0];
  }

  /** Rewrites the text in the buffer, character by character. */
  method PathToNativeSeparators(buf: array<Byte>, sep: Byte, ghost chars: seq<seq<Byte>>, signed: bool)
    requires Holds(buf[..], chars) && IsNative(sep) && Legible(chars, 0, |chars|, signed)
    modifies buf
    ensures var n := |Flatten(chars)|;
            && n <= buf.Length
            && buf[..n] == Replace(old(buf[..n]), sep)
            && buf[n..] == old(buf[n..])
            && (forall i | 0 <= i < n :: buf[i] == if old(buf[i]) in {0x2F, 0x5C} then sep else old(buf[i]))
            && (sep == 0x2F ==> forall i | 0 <= i < n :: buf[i] != 0x5C)
            && (sep == 0x5C ==> forall i | 0 <= i < n :: buf[i] != 0x2F)
    ensures Holds(buf[..], ReplaceEach(chars, sep))
  {
    ghost var was := buf[..];
    WalkBegins(was, chars);
    hide Holds, CharSize, Flatten, Boundary, IsSeparator, IsNative, Replace, ReplaceEach, InTable;
    var p := 0;
    ghost var k := 0;
    while true
      invariant k <= |chars| && p == Boundary(chars, k) < buf.Length
      invariant forall i | 0 <= i < p :: buf[i] == ReplaceByte(was[i], sep)
      invariant forall i | p <= i < buf.Length :: buf[i] == was[i]
      decreases |chars| - k
    {
      AtBoundary(was, chars, k);
      if k < |chars| {
        StepOver(was, chars, k, sep);
        LeadIsInTableIff(was, chars, k, signed);
        ReplacedStaysInTable(was[p], sep, signed);
      } else {
        NulIsNoSeparator();
      }
      if IsSeparator(buf[p]) {
        buf[p] := sep;
      }
      var next := Iterate(buf, p, signed);
      match next {
        case None => break;
        case Some(q) =>
          p := q;
          k := k + 1;
      }
    }
    RewriteIsComplete(was, buf[..], chars, sep);
    ReplacedBytes(sep);
    assert forall i | 0 <= i < buf.Length :: was[i] == old(buf[i]);
  }

  lemma ReplacedStaysInTable(b: Byte, sep: Byte, signed: bool)
    requires IsNative(sep)
    ensures InTable(ReplaceByte(b, sep), signed) <==> InTable(b, signed)
  {
  }

  /** The rewrite looks up the first byte of every character it leaves behind: these lookups are
      inside the table if and only if `char` is unsigned or all characters are single bytes. */
  lemma RewriteInTableIff(now: seq<Byte>, chars: seq<seq<Byte>>, sep: Byte, signed: bool)
    requires IsNative(sep) && Holds(now, ReplaceEach(chars, sep))
    ensures StaysInside(now, 0, |chars|)
    ensures LookupsInTable(now, 0, |chars|, signed) <==> Legible(chars, 0, |chars|, signed)
  {
    WalkBegins(now, ReplaceEach(chars, sep));
    LookupsInTableIff(now, ReplaceEach(chars, sep), 0, |chars|, signed);
    hide StaysInside, LookupsInTable, Holds;
    assert forall k | 0 <= k < |chars| :: |ReplaceEach(chars, sep)[k]| == |chars[k]|;
  }

  lemma NulIsNoSeparator()
    ensures !IsSeparator(0)
  {
  }
}
