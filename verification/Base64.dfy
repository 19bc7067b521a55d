/** Base64 as core/str.c encodes and decodes it, over bytes; section 4 of RFC 4648. */
module Base64 {
  const PAD: bv8 := 61

  /** The encoding table: A-Z, a-z, 0-9, + and /. */
  function Letter(v: bv8): bv8 {
    if v < 26 then 65 + v
    else if v < 52 then 97 + (v - 26)
    else if v < 62 then 48 + (v - 52)
    else if v == 62 then 43 else 47
  }

  /** The decoding table from '+' to 'z'; entries without a letter are zero. */
  function Sextet(c: bv8): bv8 {
    if 65 <= c <= 90 then c - 65
    else if 97 <= c <= 122 then c - 97 + 26
    else if 48 <= c <= 57 then c - 48 + 52
    else if c == 43 then 62
    else if c == 47 then 63
    else 0
  }

  predicate IsLetter(c: bv8) {
    65 <= c <= 90 || 97 <= c <= 122 || 48 <= c <= 57 || c == 43 || c == 47
  }

  /** The decoder looks nothing up outside its table. */
  predicate InTable(s: seq<bv8>) {
    forall i :: 0 <= i < |s| ==> 43 <= s[i] <= 122
  }

  // ---------- groups ----------

  function Quad(a: bv8, b: bv8, c: bv8): (r: seq<bv8>)
    ensures |r| == 4
  {
    [Letter(a >> 2), Letter(((a & 0x03) << 4) | (b >> 4)), Letter(((b & 0x0F) << 2) | (c >> 6)), Letter(c & 0x3F)]
  }

  function Triple(p: bv8, q: bv8, r: bv8, s: bv8): (x: seq<bv8>)
    ensures |x| == 3
  {
    [(Sextet(p) << 2) | (Sextet(q) >> 4), (Sextet(q) << 4) | (Sextet(r) >> 2), (Sextet(r) << 6) | Sextet(s)]
  }

  /** Eight letters in a row. */
  function Letters(v: bv8): seq<bv8> {
    [Letter(v), Letter(v + 1), Letter(v + 2), Letter(v + 3), Letter(v + 4), Letter(v + 5), Letter(v + 6), Letter(v + 7)]
  }

  /** Table 1 of RFC 4648. */
  lemma AlphabetIsTable1()
    ensures Letters(0) == [65, 66, 67, 68, 69, 70, 71, 72]  // ABCDEFGH
    ensures Letters(8) == [73, 74, 75, 76, 77, 78, 79, 80]  // IJKLMNOP
    ensures Letters(16) == [81, 82, 83, 84, 85, 86, 87, 88]  // QRSTUVWX
    ensures Letters(24) == [89, 90, 97, 98, 99, 100, 101, 102]  // YZabcdef
    ensures Letters(32) == [103, 104, 105, 106, 107, 108, 109, 110]  // ghijklmn
    ensures Letters(40) == [111, 112, 113, 114, 115, 116, 117, 118]  // opqrstuv
    ensures Letters(48) == [119, 120, 121, 122, 48, 49, 50, 51]  // wxyz0123
    ensures Letters(56) == [52, 53, 54, 55, 56, 57, 43, 47]  // 456789+/
  {
  }

  lemma SextetOfLetter(v: bv8)
    requires v < 64
    ensures Sextet(Letter(v)) == v && IsLetter(Letter(v))
  {
  }

  lemma LetterOfSextet(c: bv8)
    requires IsLetter(c)
    ensures Letter(Sextet(c)) == c && Sextet(c) < 64
  {
  }

  /** Section 4 of RFC 4648: the 24 bits of three bytes, most significant first, are cut into
      four groups of six. */
  lemma QuadIs24Bits(a: bv8, b: bv8, c: bv8)
    ensures var r := Quad(a, b, c);
      ((Sextet(r[0]) as bv32) << 18) | ((Sextet(r[1]) as bv32) << 12) | ((Sextet(r[2]) as bv32) << 6) | (Sextet(r[3]) as bv32)
      == ((a as bv32) << 16) | ((b as bv32) << 8) | (c as bv32)
  {
    SextetOfLetter(a >> 2);
    SextetOfLetter(((a & 0x03) << 4) | (b >> 4));
    SextetOfLetter(((b & 0x0F) << 2) | (c >> 6));
    SextetOfLetter(c & 0x3F);
  }

  lemma TripleOfQuad(a: bv8, b: bv8, c: bv8)
    ensures var r := Quad(a, b, c);
      Triple(r[0], r[1], r[2], r[3]) == [a, b, c] && forall i :: 0 <= i < 4 ==> IsLetter(r[i])
  {
    SextetOfLetter(a >> 2);
    SextetOfLetter(((a & 0x03) << 4) | (b >> 4));
    SextetOfLetter(((b & 0x0F) << 2) | (c >> 6));
    SextetOfLetter(c & 0x3F);
  }

  lemma QuadOfTriple(p: bv8, q: bv8, r: bv8, s: bv8)
    requires IsLetter(p) && IsLetter(q) && IsLetter(r) && IsLetter(s)
    ensures var x := Triple(p, q, r, s);
      Quad(x[0], x[1], x[2]) == [p, q, r, s]
  {
    LetterOfSextet(p);
    LetterOfSextet(q);
    LetterOfSextet(r);
    LetterOfSextet(s);
  }

  // ---------- whole texts ----------

  function Encode(x: seq<bv8>): seq<bv8>
    decreases |x|
  {
    if |x| == 0 then []
    else if |x| == 1 then Quad(x[0], 0, 0)[..2] + [PAD, PAD]
    else if |x| == 2 then Quad(x[0], x[1], 0)[..3] + [PAD]
    else Quad(x[0], x[1], x[2]) + Encode(x[3..])
  }

  /** How many of the last two characters are padding. */
  function Padding(s: seq<bv8>): nat
    requires |s| >= 2
  {
    (if s[|s| - 1] == PAD then 1 else 0) + (if s[|s| - 2] == PAD then 1 else 0)
  }

  /** All groups but the last give three bytes, the last one as many as are not padded. */
  function DecodeWith(s: seq<bv8>, pad: nat): seq<bv8>
    requires |s| >= 4 && pad <= 2
    decreases |s|
  {
    var x := Triple(s[0], s[1], s[2], s[3]);
    if |s| / 4 == 1 then x[..3 - pad] else x + DecodeWith(s[4..], pad)
  }

  function Decode(s: seq<bv8>): seq<bv8>
    requires |s| >= 4
  {
    DecodeWith(s, Padding(s))
  }

  lemma {:induction false} DecodedLength(s: seq<bv8>, pad: nat)
    requires |s| >= 4 && pad <= 2
    ensures |DecodeWith(s, pad)| == |s| / 4 * 3 - pad
    decreases |s|
  {
    if |s| / 4 > 1 {
      DecodedLength(s[4..], pad);
    }
  }

  lemma {:induction false} EncodedLength(x: seq<bv8>)
    ensures |Encode(x)| == (|x| + 2) / 3 * 4
    decreases |x|
  {
    if |x| >= 3 {
      EncodedLength(x[3..]);
    }
  }

  /** One = for each byte missing in the last group of three, and nowhere else. */
  lemma {:induction false} PaddedAtEnd(x: seq<bv8>, i: nat)
    requires i < |Encode(x)|
    ensures Encode(x)[i] == 61 <==> (|x| % 3 == 1 && i + 2 >= |Encode(x)|) || (|x| % 3 == 2 && i + 1 >= |Encode(x)|)
    decreases |x|
  {
    if |x| >= 3 {
      TripleOfQuad(x[0], x[1], x[2]);
      if i >= 4 {
        PaddedAtEnd(x[3..], i - 4);
      }
    } else if |x| == 2 {
      TripleOfQuad(x[0], x[1], 0);
    } else {
      TripleOfQuad(x[0], 0, 0);
    }
  }

  /** A last group: letters up to the padding, and no bits set that no byte takes. */
  predicate CanonicalLast(s: seq<bv8>)
    requires |s| == 4
  {
    && IsLetter(s[0]) && IsLetter(s[1])
    && if s[3] != PAD then IsLetter(s[2]) && IsLetter(s[3])
       else if s[2] != PAD then IsLetter(s[2]) && Sextet(s[2]) & 0x03 == 0
       else Sextet(s[1]) & 0x0F == 0
  }

  predicate Canonical(s: seq<bv8>)
    decreases |s|
  {
    && |s| >= 4
    && if |s| == 4 then CanonicalLast(s)
       else IsLetter(s[0]) && IsLetter(s[1]) && IsLetter(s[2]) && IsLetter(s[3]) && Canonical(s[4..])
  }

  // ---------- round trips ----------

  lemma LastBack(x: seq<bv8>)
    requires 0 < |x| < 3
    ensures var s := Encode(x);
      |s| == 4 && Padding(s) == 3 - |x| && Decode(s) == x && CanonicalLast(s)
  {
    var b: bv8 := if |x| == 2 then x[1] else 0;
    var r := Quad(x[0], b, 0);
    TripleOfQuad(x[0], b, 0);
    SextetOfLetter(((x[0] & 0x03) << 4) | (b >> 4));
    SextetOfLetter(((b & 0x0F) << 2) | (0 >> 6));
    if |x| == 2 {
      assert Encode(x) == [r[0], r[1], r[2], PAD];
      TwoBytes(x[0], x[1]);
      assert [x[0], x[1]] == x;
    } else {
      assert Encode(x) == [r[0], r[1], PAD, PAD];
      OneByte(x[0]);
      assert [x[0]] == x;
    }
  }

  lemma TwoBytes(a: bv8, b: bv8)
    ensures var r := Quad(a, b, 0);
      Triple(r[0], r[1], r[2], PAD)[..2] == [a, b] && Sextet(r[2]) & 0x03 == 0
  {
    TripleOfQuad(a, b, 0);
    SextetOfLetter((b & 0x0F) << 2);
  }

  lemma OneByte(a: bv8)
    ensures var r := Quad(a, 0, 0);
      Triple(r[0], r[1], PAD, PAD)[..1] == [a] && Sextet(r[1]) & 0x0F == 0
  {
    TripleOfQuad(a, 0, 0);
    SextetOfLetter((a & 0x03) << 4);
  }

  /** A group in front changes neither the padding nor what follows. */
  lemma Behind(q: seq<bv8>, rest: seq<bv8>)
    requires |q| == 4 && |rest| >= 4
    ensures (q + rest)[4..] == rest && Padding(q + rest) == Padding(rest)
    ensures Decode(q + rest) == Triple(q[0], q[1], q[2], q[3]) + Decode(rest)
  {
  }

  /** Encoding and decoding gives back every non-empty sequence of bytes, and what encoding
      gives is canonical. */
  lemma {:induction false} DecodeEncode(x: seq<bv8>)
    requires x != []
    ensures Canonical(Encode(x)) && Decode(Encode(x)) == x
    decreases |x|
  {
    if |x| < 3 {
      LastBack(x);
    } else {
      var q, s := Quad(x[0], x[1], x[2]), Encode(x);
      TripleOfQuad(x[0], x[1], x[2]);
      assert x == [x[0], x[1], x[2]] + x[3..];
      if |x| == 3 {
        assert Encode(x[3..]) == [] && s == q;
      } else {
        DecodeEncode(x[3..]);
        Behind(q, Encode(x[3..]));
      }
    }
  }

  lemma TwoBack(p: bv8, q: bv8, r: bv8)
    requires IsLetter(p) && IsLetter(q) && IsLetter(r) && Sextet(r) & 0x03 == 0
    ensures var x := Triple(p, q, r, PAD);
      Quad(x[0], x[1], 0)[..3] == [p, q, r]
  {
    LetterOfSextet(p);
    LetterOfSextet(q);
    LetterOfSextet(r);
  }

  lemma OneBack(p: bv8, q: bv8)
    requires IsLetter(p) && IsLetter(q) && Sextet(q) & 0x0F == 0
    ensures Quad(Triple(p, q, PAD, PAD)[0], 0, 0)[..2] == [p, q]
  {
    LetterOfSextet(p);
    LetterOfSextet(q);
  }

  lemma LastForth(s: seq<bv8>)
    requires |s| == 4 && CanonicalLast(s)
    ensures Encode(Decode(s)) == s
  {
    var x := Triple(s[0], s[1], s[2], s[3]);
    if s[3] != PAD {
      QuadOfTriple(s[0], s[1], s[2], s[3]);
      assert Decode(s) == x && x[3..] == [];
    } else if s[2] != PAD {
      TwoBack(s[0], s[1], s[2]);
      assert Decode(s) == [x[0], x[1]];
    } else {
      OneBack(s[0], s[1]);
      assert Decode(s) == [x[0]];
    }
  }

  lemma {:induction false} EncodeDecode(s: seq<bv8>)
    requires Canonical(s)
    ensures Encode(Decode(s)) == s
    decreases |s|
  {
    if |s| == 4 {
      LastForth(s);
    } else {
      QuadOfTriple(s[0], s[1], s[2], s[3]);
      EncodeDecode(s[4..]);
      Behind(s[..4], s[4..]);
      assert s == s[..4] + s[4..] && s[..4] == [s[0], s[1], s[2], s[3]];
      assert Decode(s)[3..] == Decode(s[4..]);
    }
  }

  /** Decoding loses nothing of exactly the canonical texts, among all the texts the decoder
      can read. */
  lemma CanonicalIff(s: seq<bv8>)
    requires |s| >= 4 && InTable(s)
    ensures Encode(Decode(s)) == s <==> Canonical(s)
  {
    if Encode(Decode(s)) == s {
      DecodedLength(s, Padding(s));
      DecodeEncode(Decode(s));
    }
    if Canonical(s) {
      EncodeDecode(s);
    }
  }

  // ---------- the loops ----------

  /** *next++ = v */
  method Write(buffer: array<bv8>, next: nat, v: bv8) returns (next': nat)
    requires next < buffer.Length
    modifies buffer
    ensures next' == next + 1 && buffer[..next'] == old(buffer[..next]) + [v]
  {
    buffer[next] := v;
    next' := next + 1;
  }

  lemma EncodeUnfolds(x: seq<bv8>, at: nat)
    requires at + 3 <= |x|
    ensures Encode(x[at..]) == Quad(x[at], x[at + 1], x[at + 2]) + Encode(x[at + 3..])
  {
    assert x[at..][3..] == x[at + 3..];
  }

  lemma DecodeUnfolds(s: seq<bv8>, at: nat, pad: nat)
    requires at + 8 <= |s| && pad <= 2
    ensures DecodeWith(s[at..], pad) == Triple(s[at], s[at + 1], s[at + 2], s[at + 3]) + DecodeWith(s[at + 4..], pad)
  {
    assert s[at..][4..] == s[at + 4..];
  }

  lemma Join(done: seq<bv8>, group: seq<bv8>, rest: seq<bv8>)
    ensures done + (group + rest) == (done + group) + rest
  {
  }

  lemma OneByOne(done: seq<bv8>, a: bv8, b: bv8, c: bv8, d: bv8)
    ensures done + [a] + [b] + [c] == done + [a, b, c]
    ensures done + [a] + [b] + [c] + [d] == done + [a, b, c, d]
  {
  }

  /** base64_encode: the allocated buffer is filled from the front and ended by a NUL. */
  method EncodeBuffer(data: seq<bv8>) returns (ret: array<bv8>, next: nat)
    ensures fresh(ret) && next < ret.Length && ret[..next] == Encode(data) && ret[next] == 0
  {
    var una := |data| % 3;
    var ali := (|data| - una) / 3;
    una := 3 - una;
    var outsize := |data| * 4 / 3 + 4;
    ret := new bv8[outsize + 1];
    next := 0;
    var at := 0;
    while ali > 0
      invariant 0 <= ali && at + 3 * ali + (3 - una) % 3 == |data| && 3 * next == 4 * at
      invariant ret[..next] + Encode(data[at..]) == Encode(data)
    {
      ghost var done, q := ret[..next], Quad(data[at], data[at + 1], data[at + 2]);
      EncodeUnfolds(data, at);
      Join(done, q, Encode(data[at + 3..]));
      next := Write(ret, next, Letter(data[at] >> 2));
      next := Write(ret, next, Letter(((data[at] & 0x03) << 4) | (data[at + 1] >> 4)));
      next := Write(ret, next, Letter(((data[at + 1] & 0x0F) << 2) | (data[at + 2] >> 6)));
      next := Write(ret, next, Letter(data[at + 2] & 0x3F));
      OneByOne(done, q[0], q[1], q[2], q[3]);
      at := at + 3;
      ali := ali - 1;
    }
    next := EncodeRest(data[at..], ret, next);
    ret[next] := 0;
  }

  /** The switch over the bytes left over, one or two of them or none. */
  method EncodeRest(data: seq<bv8>, ret: array<bv8>, from: nat) returns (next: nat)
    requires |data| < 3 && from + 4 <= ret.Length
    modifies ret
    ensures from <= next <= from + 4 && ret[..next] == old(ret[..from]) + Encode(data)
  {
    ghost var done := ret[..from];
    next := from;
    if |data| == 2 {
      next := Write(ret, next, Letter(data[0] >> 2));
      next := Write(ret, next, Letter(((data[0] & 0x03) << 4) | (data[1] >> 4)));
      next := Write(ret, next, Letter((data[1] & 0x0F) << 2));
      next := Write(ret, next, PAD);
      assert ((data[1] & 0x0F) << 2) | (0 >> 6) == (data[1] & 0x0F) << 2;
      ghost var q := Encode(data);
      OneByOne(done, q[0], q[1], q[2], q[3]);
      assert q == [q[0], q[1], q[2], q[3]];
    } else if |data| == 1 {
      next := Write(ret, next, Letter(data[0] >> 2));
      next := Write(ret, next, Letter((data[0] & 0x03) << 4));
      next := Write(ret, next, PAD);
      next := Write(ret, next, PAD);
      assert ((data[0] & 0x03) << 4) | (0 >> 4) == (data[0] & 0x03) << 4;
      ghost var q := Encode(data);
      OneByOne(done, q[0], q[1], q[2], q[3]);
      assert q == [q[0], q[1], q[2], q[3]];
    }
  }

  /** One full group of four characters. */
  method DecodeGroup(p: bv8, q: bv8, r: bv8, s: bv8, data: array<bv8>, from: nat) returns (next: nat)
    requires from + 3 <= data.Length
    modifies data
    ensures next == from + 3 && data[..next] == old(data[..from]) + Triple(p, q, r, s)
  {
    ghost var x := Triple(p, q, r, s);
    OneByOne(data[..from], x[0], x[1], x[2], 0);
    next := Write(data, from, (Sextet(p) << 2) | (Sextet(q) >> 4));
    next := Write(data, next, (Sextet(q) << 4) | (Sextet(r) >> 2));
    next := Write(data, next, (Sextet(r) << 6) | Sextet(s));
  }

  /** base64_decode: size is what is announced, and exactly what is written. */
  method DecodeBuffer(s: seq<bv8>) returns (data: array<bv8>, size: nat)
    requires |s| >= 4 && InTable(s)
    ensures fresh(data) && data.Length == size && data[..] == Decode(s)
  {
    var una := 0;
    if s[|s| - 1] == PAD {
      una := una + 1;
    }
    if s[|s| - 2] == PAD {
      una := una + 1;
    }
    DecodedLength(s, una);
    size := |s| / 4 * 3 - una;
    data := new bv8[size];
    var next, at, count := 0, 0, |s| / 4 - 1;
    while count > 0
      invariant 0 <= count && 3 * at == 4 * next && at + 4 * count + 4 <= |s| < at + 4 * count + 8
      invariant next + 3 * count + 3 - una == size
      invariant data[..next] + DecodeWith(s[at..], una) == Decode(s)
    {
      DecodeUnfolds(s, at, una);
      Join(data[..next], Triple(s[at], s[at + 1], s[at + 2], s[at + 3]), DecodeWith(s[at + 4..], una));
      next := DecodeGroup(s[at], s[at + 1], s[at + 2], s[at + 3], data, next);
      at := at + 4;
      count := count - 1;
    }
    DecodeLast(s[at..], una, data, next);
  }

  /** The switch over the padding of the last group. */
  method DecodeLast(s: seq<bv8>, una: nat, data: array<bv8>, from: nat)
    requires 4 <= |s| < 8 && una <= 2 && from + 3 - una == data.Length
    modifies data
    ensures data[..] == old(data[..from]) + DecodeWith(s, una)
  {
    ghost var done, x := data[..from], Triple(s[0], s[1], s[2], s[3]);
    assert DecodeWith(s, una) == x[..3 - una];
    OneByOne(done, x[0], x[1], x[2], 0);
    assert x[..1] == [x[0]] && x[..2] == [x[0], x[1]] && x[..3] == [x[0], x[1], x[2]];
    assert done + [x[0]] + [x[1]] == done + [x[0], x[1]];
    var next := Write(data, from, (Sextet(s[0]) << 2) | (Sextet(s[1]) >> 4));
    if una < 2 {
      next := Write(data, next, (Sextet(s[1]) << 4) | (Sextet(s[2]) >> 2));
    }
    if una < 1 {
      next := Write(data, next, (Sextet(s[2]) << 6) | Sextet(s[3]));
    }
    assert data[..] == data[..next];
  }
}
