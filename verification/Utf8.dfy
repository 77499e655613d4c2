/**
  UTF-8 as sections 3 and 4 of RFC 3629 and section 3.9 of the Unicode Standard define it, and the two
  byte loops that the legacy Crypto Wallets import runs over it: the character count of the salt and the
  repair of the derived key.
 */
module Utf8 {
  import opened Prelude

  type Byte = b: int | 0 <= b < 0x100

  predicate IsValidCodepoint(c: int) {
    0 <= c < 0xD800 || 0xE000 <= c <= 0x10FFFF
  }

  type Scalar = c: int | 0 <= c < 0xD800 || 0xE000 <= c <= 0x10FFFF

  const REPLACEMENT: Scalar := 0xFFFD

  // ---------------------------------------------------------------- encoding

  /** What WriteUnicodeCharacter appends: section 3 of RFC 3629, six bits a continuation byte. */
  function EncodeOne(c: Scalar): seq<Byte> {
    var q1 := c / 0x40;
    var q2 := q1 / 0x40;
    if c < 0x80 then [c]
    else if c < 0x800 then [0xC0 + q1, 0x80 + c % 0x40]
    else if c < 0x10000 then [0xE0 + q2, 0x80 + q1 % 0x40, 0x80 + c % 0x40]
    else [0xF0 + q2 / 0x40, 0x80 + q2 % 0x40, 0x80 + q1 % 0x40, 0x80 + c % 0x40]
  }

  function Encode(cs: seq<Scalar>): seq<Byte> {
    if cs == [] then [] else EncodeOne(cs[0]) + Encode(cs[1..])
  }

  /** All bytes but the first are of the form 10xxxxxx. */
  predicate Continued(e: seq<Byte>) {
    forall k :: 1 <= k < |e| ==> 0x80 <= e[k] < 0xC0
  }

  /** The bits of the first byte without its mark, followed by the six low bits of every other byte. */
  function Bits(e: seq<Byte>, mark: int): int
    requires e != []
  {
    var n := |e| - 1;
    if n == 0 then e[0] - mark else Bits(e[..n], mark) * 0x40 + (e[n] as int - 0x80)
  }

  lemma SixBits(c: int, high: int, b: int)
    requires 0x80 <= b < 0xC0
    ensures c == high * 0x40 + (b - 0x80) <==> high == c / 0x40 && b == 0x80 + c % 0x40
  {
  }

  lemma BitsOfTwo(e: seq<Byte>, c: int, mark: int)
    requires |e| == 2 && Continued(e)
    ensures Bits(e, mark) == c <==> e[0] - mark == c / 0x40 && e[1] == 0x80 + c % 0x40
  {
    SixBits(c, e[0] - mark, e[1]);
  }

  lemma BitsOfThree(e: seq<Byte>, c: int, mark: int)
    requires |e| == 3 && Continued(e)
    ensures Bits(e, mark) == c <==>
            e[0] - mark == c / 0x40 / 0x40 && e[1] == 0x80 + c / 0x40 % 0x40 && e[2] == 0x80 + c % 0x40
  {
    SixBits(c, Bits(e[..2], mark), e[2]);
    BitsOfTwo(e[..2], c / 0x40, mark);
  }

  lemma BitsOfFour(e: seq<Byte>, c: int, mark: int)
    requires |e| == 4 && Continued(e)
    ensures Bits(e, mark) == c <==>
            && e[0] - mark == c / 0x40 / 0x40 / 0x40 && e[1] == 0x80 + c / 0x40 / 0x40 % 0x40
            && e[2] == 0x80 + c / 0x40 % 0x40 && e[3] == 0x80 + c % 0x40
  {
    SixBits(c, Bits(e[..3], mark), e[3]);
    BitsOfThree(e[..3], c / 0x40, mark);
  }

  /**
    Section 3 of RFC 3629: the shortest of the four forms that has room for the scalar value, whose bits are
    those of the bytes put together.
   */
  lemma EncodeOneExactly(c: Scalar, e: seq<Byte>)
    requires e != []
    ensures EncodeOne(c) == e <==>
            && Continued(e)
            && |e| == (if c < 0x80 then 1 else if c < 0x800 then 2 else if c < 0x10000 then 3 else 4)
            && Bits(e, if c < 0x80 then 0 else if c < 0x800 then 0xC0 else if c < 0x10000 then 0xE0 else 0xF0) == c
  {
    if Continued(e) && |e| == 2 {
      BitsOfTwo(e, c, 0xC0);
    } else if Continued(e) && |e| == 3 {
      BitsOfThree(e, c, 0xE0);
    } else if Continued(e) && |e| == 4 {
      BitsOfFour(e, c, 0xF0);
    }
  }

  /** Well-formedness is stated without the decoder: some scalar values encode to exactly these bytes. */
  ghost predicate WellFormed(s: seq<Byte>) {
    exists cs: seq<Scalar> :: Encode(cs) == s
  }

  // ---------------------------------------------------------------- decoding

  /** One step of a decoder: a scalar value or an ill-formed part, with the number of bytes it covers. */
  datatype Part = Good(c: Scalar, len: nat) | Bad(len: nat)

  predicate Continuation(b: Byte) {
    0x80 <= b <= 0xBF
  }

  /** The second-byte column of Table 3-7 of the Unicode Standard. */
  predicate SecondByteAllowed(lead: Byte, b: Byte) {
    && (if lead == 0xE0 then 0xA0 else if lead == 0xF0 then 0x90 else 0x80) <= b
    && b <= (if lead == 0xED then 0x9F else if lead == 0xF4 then 0x8F else 0xBF)
  }

  /** `high` followed by the six low bits of a continuation byte. */
  function Shift(high: int, b: Byte): int {
    high * 0x40 + (b - 0x80)
  }

  function Scan(t: seq<Byte>): (p: Part)
    requires t != []
    ensures 1 <= p.len <= |t|
    ensures p.Bad? ==> p.len <= 3
  {
    var b: int := t[0];
    if b < 0x80 then Good(b, 1)
    else if b < 0xC2 || 0xF4 < b || |t| < 2 || !SecondByteAllowed(b, t[1]) then Bad(1)
    else if b < 0xE0 then Good(Shift(b - 0xC0, t[1]), 2)
    else if |t| < 3 || !Continuation(t[2]) then Bad(2)
    else if b < 0xF0 then Good(Shift(Shift(b - 0xE0, t[1]), t[2]), 3)
    else if |t| < 4 || !Continuation(t[3]) then Bad(3)
    else Good(Shift(Shift(Shift(b - 0xF0, t[1]), t[2]), t[3]), 4)
  }

  /** The parts of a byte string, None for each ill-formed one. */
  function Decode(s: seq<Byte>): (parts: seq<Option<Scalar>>)
    decreases |s|
  {
    if s == [] then []
    else
      var p := Scan(s);
      [if p.Good? then Some(p.c) else None] + Decode(s[p.len..])
  }

  /** The parts of a string with nothing ill-formed in it. */
  function Intact(cs: seq<Scalar>): seq<Option<Scalar>> {
    seq(|cs|, i requires 0 <= i < |cs| => Some(cs[i]))
  }

  function Patch(parts: seq<Option<Scalar>>): seq<Scalar> {
    seq(|parts|, i requires 0 <= i < |parts| => if parts[i].Some? then parts[i].value else REPLACEMENT)
  }

  function Repair(s: seq<Byte>): seq<Byte> {
    Encode(Patch(Decode(s)))
  }

  function Decodable(parts: seq<Option<Scalar>>): nat {
    if parts == [] then 0 else (if parts[0].Some? then 1 else 0) + Decodable(parts[1..])
  }

  // ---------------------------------------------------------------- the two loops

  /**
    base::ReadUnicodeCharacter: the index comes back on the last byte consumed, and the code point is -1
    for an ill-formed part.
   */
  method ReadUnicodeCharacter(src: seq<Byte>, index: nat) returns (ok: bool, last: nat, codePoint: int)
    requires index < |src|
    ensures last == index + Scan(src[index..]).len - 1
    ensures ok == Scan(src[index..]).Good? == IsValidCodepoint(codePoint)
    ensures ok ==> codePoint == Scan(src[index..]).c
  {
    var p := Scan(src[index..]);
    last := index + p.len - 1;
    codePoint := if p.Good? then p.c else -1;
    ok := IsValidCodepoint(codePoint);
  }

  /** base::WriteUnicodeCharacter appends to the output. */
  method WriteUnicodeCharacter(codePoint: Scalar, output: seq<Byte>) returns (longer: seq<Byte>)
    ensures longer == output + EncodeOne(codePoint)
  {
    longer := output + EncodeOne(codePoint);
  }

  /** The salt loop: the count that becomes the salt length given to argon2. */
  method CountCharacters(salt: seq<Byte>) returns (count: nat)
    ensures count == Decodable(Decode(salt)) && count <= |salt|
  {
    count := 0;
    var i := 0;
    while i < |salt|
      invariant 0 <= i <= |salt| && count + CountFrom(salt, i) == CountFrom(salt, 0)
    {
      var ok, last, _ := ReadUnicodeCharacter(salt, i);
      if ok {
        count := count + 1;
      }
      i := last + 1;
    }
    CountBounded(salt);
  }

  /** The key loop: every ill-formed part becomes U+FFFD, everything else is written back. */
  method RepairKey(subKey: seq<Byte>) returns (password: seq<Byte>)
    ensures password == Repair(subKey)
  {
    password := [];
    var i := 0;
    while i < |subKey|
      invariant 0 <= i <= |subKey| && RepairOnto(subKey, i, password) == RepairOnto(subKey, 0, [])
    {
      var ok, last, codePoint := ReadUnicodeCharacter(subKey, i);
      if !ok || !IsValidCodepoint(codePoint) {
        codePoint := 0xFFFD;
      }
      password := WriteUnicodeCharacter(codePoint, password);
      i := last + 1;
    }
    RepairWhole(subKey);
  }

  /** What the salt loop counts from an index on. */
  function CountFrom(s: seq<Byte>, i: nat): nat
    requires i <= |s|
    decreases |s| - i
  {
    if i == |s| then 0
    else
      var p := Scan(s[i..]);
      (if p.Good? then 1 else 0) + CountFrom(s, i + p.len)
  }

  /** What the key loop makes of its output from an index on. */
  function RepairOnto(s: seq<Byte>, i: nat, output: seq<Byte>): seq<Byte>
    requires i <= |s|
    decreases |s| - i
  {
    if i == |s| then output
    else
      var p := Scan(s[i..]);
      RepairOnto(s, i + p.len, output + EncodeOne(if p.Good? then p.c else REPLACEMENT))
  }

  lemma {:induction false} CountFromDecodes(s: seq<Byte>, i: nat)
    requires i <= |s|
    ensures CountFrom(s, i) == Decodable(Decode(s[i..]))
    decreases |s| - i
  {
    if i < |s| {
      var p := Scan(s[i..]);
      CountFromDecodes(s, i + p.len);
      assert s[i..][p.len..] == s[i + p.len..];
      assert Decode(s[i..])[1..] == Decode(s[i + p.len..]);
    }
  }

  lemma CountBounded(s: seq<Byte>)
    ensures CountFrom(s, 0) == Decodable(Decode(s)) <= |s|
  {
    CountFromDecodes(s, 0);
    assert s[0..] == s;
    DecodableBounded(s);
  }

  lemma {:induction false} RepairOntoAppends(s: seq<Byte>, i: nat, output: seq<Byte>)
    requires i <= |s|
    ensures RepairOnto(s, i, output) == output + Repair(s[i..])
    decreases |s| - i
  {
    if i < |s| {
      var p := Scan(s[i..]);
      var e := EncodeOne(if p.Good? then p.c else REPLACEMENT);
      RepairOntoAppends(s, i + p.len, output + e);
      RepairFirst(s[i..]);
      assert s[i..][p.len..] == s[i + p.len..];
      Associative(output, e, Repair(s[i + p.len..]));
    }
  }

  lemma RepairWhole(s: seq<Byte>)
    ensures RepairOnto(s, 0, []) == Repair(s)
  {
    RepairOntoAppends(s, 0, []);
    assert s[0..] == s;
  }

  // ---------------------------------------------------------------- decoder against encoder

  lemma ScanEncoded(c: Scalar, t: seq<Byte>)
    ensures Scan(EncodeOne(c) + t) == Good(c, |EncodeOne(c)|)
  {
    var e := EncodeOne(c);
    var u := e + t;
    assert forall k :: 0 <= k < |e| ==> u[k] == e[k];
  }

  lemma ShiftDigits(high: int, b: Byte)
    requires Continuation(b)
    ensures Shift(high, b) / 0x40 == high && 0x80 + Shift(high, b) % 0x40 == b
  {
  }

  /** A scalar is only ever reported for bytes that are its encoding. */
  lemma ScanGood(t: seq<Byte>)
    requires t != [] && Scan(t).Good?
    ensures EncodeOne(Scan(t).c) == t[..Scan(t).len]
  {
    var b: int := t[0];
    var n := Scan(t).len;
    if n == 2 {
      ShiftDigits(b - 0xC0, t[1]);
    } else if n == 3 {
      ShiftDigits(b - 0xE0, t[1]);
      ShiftDigits(Shift(b - 0xE0, t[1]), t[2]);
    } else if n == 4 {
      ShiftDigits(b - 0xF0, t[1]);
      ShiftDigits(Shift(b - 0xF0, t[1]), t[2]);
      ShiftDigits(Shift(Shift(b - 0xF0, t[1]), t[2]), t[3]);
    }
  }

  /** The bytes begin the encoding of some scalar value. */
  ghost predicate StartsEncoding(p: seq<Byte>) {
    exists c: Scalar :: p <= EncodeOne(c)
  }

  /**
    Definition D93b of the Unicode Standard: a step is ill-formed exactly when no encoding is a prefix of
    what is left, and it then covers the longest prefix that starts an encoding, or one byte if there is
    none.
   */
  lemma MaximalSubpart(t: seq<Byte>)
    requires t != []
    ensures Scan(t).Bad? <==> forall c: Scalar :: !(EncodeOne(c) <= t)
    ensures Scan(t).Bad? ==> var n := Scan(t).len;
                             && (n == 1 || StartsEncoding(t[..n]))
                             && forall m :: n < m <= |t| ==> !StartsEncoding(t[..m])
  {
    if Scan(t).Good? {
      ScanGood(t);
      assert EncodeOne(Scan(t).c) <= t;
    } else {
      forall c: Scalar ensures !(EncodeOne(c) <= t) {
        if EncodeOne(c) <= t {
          assert EncodeOne(c) + t[|EncodeOne(c)|..] == t;
          ScanEncoded(c, t[|EncodeOne(c)|..]);
        }
      }
      var n := Scan(t).len;
      forall m, c: Scalar | n < m <= |t| ensures !(t[..m] <= EncodeOne(c)) {
        ScanEncoded(c, []);
        assert EncodeOne(c) + [] == EncodeOne(c);
        BadStaysBad(t, EncodeOne(c), m);
      }
      if n > 1 {
        SubpartStarts(t);
      }
    }
  }

  /** Whatever agrees with `t` one byte past an ill-formed part is ill-formed too. */
  lemma BadStaysBad(t: seq<Byte>, u: seq<Byte>, m: nat)
    requires t != [] && Scan(t).Bad? && Scan(t).len < m <= |t|
    ensures t[..m] <= u ==> Scan(u).Bad?
  {
    assert forall k :: 0 <= k < m ==> t[..m][k] == t[k];
  }

  lemma SubpartStarts(t: seq<Byte>)
    requires t != [] && Scan(t).Bad? && Scan(t).len > 1
    ensures StartsEncoding(t[..Scan(t).len])
  {
    var n := Scan(t).len;
    var u := t[..n] + seq(if t[0] < 0xF0 then 3 - n else 4 - n, _ => 0x80);
    assert u[0] == t[0] && u[1] == t[1];
    assert Scan(u).Good?;
    ScanGood(u);
    assert u[..Scan(u).len] == u;
    assert t[..n] <= EncodeOne(Scan(u).c);
  }

  lemma IntactFirst(cs: seq<Scalar>)
    requires cs != []
    ensures Intact(cs) == [Some(cs[0])] + Intact(cs[1..])
  {
  }

  lemma DecodeFirst(c: Scalar, rest: seq<Byte>)
    ensures Decode(EncodeOne(c) + rest) == [Some(c)] + Decode(rest)
  {
    var e := EncodeOne(c);
    ScanEncoded(c, rest);
    assert (e + rest)[|e|..] == rest;
  }

  /** Encoding then decoding gives the scalars back, whatever follows them. */
  lemma {:induction false} DecodeEncode(cs: seq<Scalar>, t: seq<Byte>)
    ensures Decode(Encode(cs) + t) == Intact(cs) + Decode(t)
  {
    if cs == [] {
      assert Encode(cs) + t == t;
    } else {
      var e, rest := EncodeOne(cs[0]), Encode(cs[1..]);
      assert Encode(cs) == e + rest;
      Associative(e, rest, t);
      DecodeFirst(cs[0], rest + t);
      DecodeEncode(cs[1..], t);
      IntactFirst(cs);
      Associative([Some(cs[0])], Intact(cs[1..]), Decode(t));
    }
  }

  lemma {:induction false} EncodeConcat(a: seq<Scalar>, b: seq<Scalar>)
    ensures Encode(a + b) == Encode(a) + Encode(b)
  {
    if a == [] {
      assert a + b == b;
    } else {
      EncodeConcat(a[1..], b);
      assert (a + b)[1..] == a[1..] + b;
      var e, x, y := EncodeOne(a[0]), Encode(a[1..]), Encode(b);
      assert Encode(a + b) == e + (x + y);
      Associative(e, x, y);
    }
  }

  lemma PatchIntact(cs: seq<Scalar>, parts: seq<Option<Scalar>>)
    ensures Patch(Intact(cs) + parts) == cs + Patch(parts)
  {
  }

  lemma RepairFirst(s: seq<Byte>)
    requires s != []
    ensures var p := Scan(s);
            Repair(s) == EncodeOne(if p.Good? then p.c else REPLACEMENT) + Repair(s[p.len..])
  {
    var p := Scan(s);
    assert Patch(Decode(s))[1..] == Patch(Decode(s[p.len..]));
  }

  // ---------------------------------------------------------------- what the repair guarantees

  /** An ill-formed part becomes the three bytes of U+FFFD, and what follows it is repaired by itself. */
  lemma RepairIllFormed(s: seq<Byte>)
    requires s != [] && forall c: Scalar :: !(EncodeOne(c) <= s)
    ensures Scan(s).Bad? && Repair(s) == [0xEF, 0xBF, 0xBD] + Repair(s[Scan(s).len..])
  {
    MaximalSubpart(s);
    RepairFirst(s);
  }

  /** Well-formed text in front is copied and does not disturb the repair of what follows it. */
  lemma RepairPrefix(cs: seq<Scalar>, t: seq<Byte>)
    ensures Repair(Encode(cs) + t) == Encode(cs) + Repair(t)
  {
    DecodeEncode(cs, t);
    var tail := Patch(Decode(t));
    PatchIntact(cs, Decode(t));
    EncodeConcat(cs, tail);
  }

  /** The repair always produces well-formed text, and it changes nothing exactly on well-formed text. */
  lemma RepairCorrect(s: seq<Byte>)
    ensures WellFormed(Repair(s))
    ensures Repair(s) == s <==> WellFormed(s)
    ensures Repair(Repair(s)) == Repair(s)
  {
    assert Encode(Patch(Decode(s))) == Repair(s);
    forall cs: seq<Scalar> | Encode(cs) == s || Encode(cs) == Repair(s)
      ensures Repair(Encode(cs)) == Encode(cs)
    {
      RepairPrefix(cs, []);
      assert Encode(cs) + [] == Encode(cs);
    }
  }

  lemma {:induction false} RepairLength(s: seq<Byte>)
    ensures |s| <= |Repair(s)| <= 3 * |s|
    decreases |s|
  {
    if s != [] {
      RepairFirst(s);
      if Scan(s).Good? {
        ScanGood(s);
      }
      RepairLength(s[Scan(s).len..]);
    }
  }

  // ---------------------------------------------------------------- what the salt count means

  lemma {:induction false} DecodableBounded(s: seq<Byte>)
    ensures Decodable(Decode(s)) <= |Decode(s)| <= |s|
    decreases |s|
  {
    if s != [] {
      DecodableBounded(s[Scan(s).len..]);
      assert Decode(s)[1..] == Decode(s[Scan(s).len..]);
    }
  }

  lemma {:induction false} DecodableAll(cs: seq<Scalar>)
    ensures Decodable(Intact(cs)) == |cs|
  {
    if cs != [] {
      DecodableAll(cs[1..]);
      assert Intact(cs)[1..] == Intact(cs[1..]);
    }
  }

  /** On well-formed text the count is the number of scalar values. */
  lemma CountOfEncoding(cs: seq<Scalar>)
    ensures Decodable(Decode(Encode(cs))) == |cs|
  {
    DecodeWhole(cs);
    DecodableAll(cs);
  }

  /** `salt.length` of the JavaScript string the bytes decode to: UTF-16 units, U+FFFD for a bad part. */
  function JsLength(parts: seq<Option<Scalar>>): nat {
    if parts == [] then 0
    else (if parts[0].Some? && parts[0].value >= 0x10000 then 2 else 1) + JsLength(parts[1..])
  }

  /** The UTF-16 code units of a scalar value: itself, or a surrogate pair (section 2.1 of RFC 2781). */
  function Utf16One(c: Scalar): seq<int> {
    if c < 0x10000 then [c] else [0xD800 + (c - 0x10000) / 0x400, 0xDC00 + (c - 0x10000) % 0x400]
  }

  function Utf16(cs: seq<Scalar>): seq<int> {
    if cs == [] then [] else Utf16One(cs[0]) + Utf16(cs[1..])
  }

  lemma {:induction false} JsLengthExactly(parts: seq<Option<Scalar>>)
    ensures JsLength(parts) == |Utf16(Patch(parts))|
  {
    if parts != [] {
      JsLengthExactly(parts[1..]);
      assert Patch(parts)[1..] == Patch(parts[1..]);
    }
  }

  predicate ShortParts(parts: seq<Option<Scalar>>) {
    forall p :: p in parts ==> p.Some? && p.value < 0x10000
  }

  lemma {:induction false} PartsJsLength(parts: seq<Option<Scalar>>)
    ensures Decodable(parts) <= JsLength(parts)
    ensures Decodable(parts) == JsLength(parts) <==> ShortParts(parts)
  {
    if parts != [] {
      PartsJsLength(parts[1..]);
      assert forall p :: p in parts <==> p == parts[0] || p in parts[1..];
    }
  }

  /** Where nothing is ill-formed, the bytes are the encoding of what was decoded. */
  lemma {:induction false} IntactIsEncoding(s: seq<Byte>)
    requires forall p :: p in Decode(s) ==> p.Some?
    ensures Repair(s) == s
    decreases |s|
  {
    if s != [] {
      var p := Scan(s);
      assert Decode(s)[0].Some? && Decode(s)[1..] == Decode(s[p.len..]);
      assert forall q :: q in Decode(s[p.len..]) ==> q in Decode(s);
      IntactIsEncoding(s[p.len..]);
      RepairFirst(s);
      ScanGood(s);
      Rejoin(s, p.len);
    }
  }

  lemma Rejoin(s: seq<Byte>, n: nat)
    requires n <= |s|
    ensures s[..n] + s[n..] == s
  {
  }

  /** The bytes encode scalars below U+10000, which JavaScript counts as one each. */
  ghost predicate ShortText(s: seq<Byte>) {
    exists cs: seq<Scalar> :: Encode(cs) == s && forall c :: c in cs ==> c < 0x10000
  }

  /**
    The count of a salt stands in for JavaScript's salt.length. The two agree exactly when the salt is the
    encoding of scalars below U+10000; a bad part or a longer scalar makes the count smaller.
   */
  lemma CountIsJsLength(salt: seq<Byte>)
    ensures Decodable(Decode(salt)) <= JsLength(Decode(salt))
    ensures Decodable(Decode(salt)) == JsLength(Decode(salt)) <==> ShortText(salt)
  {
    PartsJsLength(Decode(salt));
    if ShortParts(Decode(salt)) {
      ShortPartsEncode(salt);
    }
    if ShortText(salt) {
      var cs: seq<Scalar> :| Encode(cs) == salt && forall c :: c in cs ==> c < 0x10000;
      DecodeWhole(cs);
      IntactShort(cs);
    }
  }

  lemma IntactShort(cs: seq<Scalar>)
    requires forall c :: c in cs ==> c < 0x10000
    ensures ShortParts(Intact(cs))
  {
    assert forall k :: 0 <= k < |cs| ==> Intact(cs)[k] == Some(cs[k]) && cs[k] in cs;
  }

  lemma ShortPartsEncode(salt: seq<Byte>)
    requires ShortParts(Decode(salt))
    ensures ShortText(salt)
  {
    IntactIsEncoding(salt);
    var cs := Patch(Decode(salt));
    PatchShort(Decode(salt));
    assert Encode(cs) == salt;
  }

  lemma PatchShort(parts: seq<Option<Scalar>>)
    requires ShortParts(parts)
    ensures forall c :: c in Patch(parts) ==> c < 0x10000
  {
    assert forall k :: 0 <= k < |parts| ==> parts[k].Some? && Patch(parts)[k] == parts[k].value;
  }

  lemma DecodeWhole(cs: seq<Scalar>)
    ensures Decode(Encode(cs)) == Intact(cs)
  {
    DecodeEncode(cs, []);
    assert Encode(cs) + [] == Encode(cs) && Intact(cs) + [] == Intact(cs);
  }

  /** U+1F600 has one character by the count and two by JavaScript's length. */
  lemma CountBelowJsLength()
    ensures var salt := [0xF0, 0x9F, 0x98, 0x80];
            Decodable(Decode(salt)) == 1 && JsLength(Decode(salt)) == 2
  {
    var salt: seq<Byte> := [0xF0, 0x9F, 0x98, 0x80];
    assert Scan(salt) == Good(0x1F600, 4);
    assert Decode(salt) == [Some(0x1F600)] + Decode(salt[4..]) == [Some(0x1F600)];
  }
}
