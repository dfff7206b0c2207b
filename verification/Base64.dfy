/** Base64Encode (src/execution/result_serializer.cpp) and a decoder written from section 4 of RFC 4648. */
module Base64 {
  import opened Text

  // ----- the alphabet

  function Letter(v: nat): char
    requires v < 64
  {
    if v < 26 then (v + 'A' as int) as char
    else if v < 52 then (v - 26 + 'a' as int) as char
    else if v < 62 then (v - 52 + '0' as int) as char
    else if v == 62 then '+' else '/'
  }

  /** The six bits of a letter, -1 for a character outside the alphabet. */
  function Sextet(c: char): (v: int)
    ensures -1 <= v < 64
    ensures v >= 0 ==> c == Letter(v)
  {
    if 'A' <= c <= 'Z' then c as int - 'A' as int
    else if 'a' <= c <= 'z' then c as int - 'a' as int + 26
    else if '0' <= c <= '9' then c as int - '0' as int + 52
    else if c == '+' then 62 else if c == '/' then 63 else -1
  }

  lemma SextetOfLetter(v: nat)
    requires v < 64
    ensures Sextet(Letter(v)) == v && Letter(v) != '='
  {
  }

  // ----- encoding

  function Group(b0: nat, b1: nat, b2: nat): (g: string)
    requires b0 < 256 && b1 < 256 && b2 < 256
    ensures |g| == 4
  {
    var n := b0 * 65536 + b1 * 256 + b2;
    [Letter(n / 262144 % 64), Letter(n / 4096 % 64), Letter(n / 64 % 64), Letter(n % 64)]
  }

  function Encode(data: string): string
    requires IsBytes(data)
  {
    if data == "" then ""
    else if |data| == 1 then Group(data[0] as int, 0, 0)[..2] + "=="
    else if |data| == 2 then Group(data[0] as int, data[1] as int, 0)[..3] + "="
    else Group(data[0] as int, data[1] as int, data[2] as int) + Encode(data[3..])
  }

  lemma {:induction false} EncodeCat(a: string, b: string)
    requires IsBytes(a) && IsBytes(b) && |a| % 3 == 0
    ensures IsBytes(a + b) && Encode(a + b) == Encode(a) + Encode(b)
    decreases |a|
  {
    hide Group;
    if a == "" {
      assert a + b == b;
    } else {
      assert |a| >= 3 && (a + b)[3..] == a[3..] + b;
      EncodeCat(a[3..], b);
    }
  }

  /** The loop over groups of three, then the two tail cases. */
  method Base64Encode(data: string) returns (out: string)
    requires IsBytes(data)
    ensures out == Encode(data)
  {
    hide Encode, Letter;
    out := "";
    var i := 0;
    EncodeNothing();
    assert data[..0] == "" && data[0..] == data;
    while i + 3 <= |data|
      invariant i <= |data| && i % 3 == 0 && out == Encode(data[..i])
    {
      var n := data[i] as int * 65536 + data[i + 1] as int * 256 + data[i + 2] as int;
      EncodeNext(data, i, i + 3);
      out := out + [Letter(n / 262144 % 64), Letter(n / 4096 % 64), Letter(n / 64 % 64), Letter(n % 64)];
      i := i + 3;
    }
    EncodeNext(data, i, |data|);
    assert data[..|data|] == data;
    if i + 1 == |data| {
      var n := data[i] as int * 65536;
      out := out + ([Letter(n / 262144 % 64), Letter(n / 4096 % 64)] + "==");
    } else if i + 2 == |data| {
      var n := data[i] as int * 65536 + data[i + 1] as int * 256;
      out := out + ([Letter(n / 262144 % 64), Letter(n / 4096 % 64), Letter(n / 64 % 64)] + "=");
    } else {
      assert out + "" == out;
    }
  }

  /** What the bytes from `i` to `j`, at most three, add. */
  lemma EncodeNext(data: string, i: nat, j: nat)
    requires IsBytes(data) && i % 3 == 0 && i <= j <= |data| && j <= i + 3
    ensures Encode(data[..j]) == Encode(data[..i]) +
            if j == i then ""
            else if j == i + 1 then Group(data[i] as int, 0, 0)[..2] + "=="
            else if j == i + 2 then Group(data[i] as int, data[i + 1] as int, 0)[..3] + "="
            else Group(data[i] as int, data[i + 1] as int, data[i + 2] as int)
  {
    hide Group;
    EncodeCat(data[..i], data[i..j]);
    assert data[..i] + data[i..j] == data[..j];
    if j == i + 3 {
      EncodeThree(data[i..j]);
    }
  }

  lemma EncodeNothing()
    ensures Encode("") == ""
  {
  }

  lemma EncodeThree(s: string)
    requires |s| == 3 && IsBytes(s)
    ensures Encode(s) == Group(s[0] as int, s[1] as int, s[2] as int)
  {
    assert s[3..] == "" && Encode("") == "";
  }

  // ----- decoding

  /** Four letters carry three bytes. */
  function Three(v0: nat, v1: nat, v2: nat, v3: nat): string
    requires v0 < 64 && v1 < 64 && v2 < 64 && v3 < 64
  {
    [(v0 * 4 + v1 / 16) as char, (v1 % 16 * 16 + v2 / 4) as char, (v2 % 4 * 64 + v3) as char]
  }

  /** A last group with padding; the bits it does not use must be zero (section 3.5). */
  function DecodePadded(t: string): Option<string>
    requires |t| == 4
  {
    var v0, v1, v2 := Sextet(t[0]), Sextet(t[1]), Sextet(t[2]);
    if v0 < 0 || v1 < 0 then None
    else if t[2] == '=' then (if v1 % 16 == 0 then Some([(v0 * 4 + v1 / 16) as char]) else None)
    else if v2 < 0 || v2 % 4 != 0 then None
    else Some([(v0 * 4 + v1 / 16) as char, (v1 % 16 * 16 + v2 / 4) as char])
  }

  function Decode(t: string): Option<string> {
    if t == "" then Some("")
    else if |t| < 4 then None
    else if |t| == 4 && t[3] == '=' then DecodePadded(t)
    else
      var v0, v1, v2, v3 := Sextet(t[0]), Sextet(t[1]), Sextet(t[2]), Sextet(t[3]);
      if v0 < 0 || v1 < 0 || v2 < 0 || v3 < 0 then None
      else
        match Decode(t[4..])
        case None => None
        case Some(rest) => Some(Three(v0, v1, v2, v3) + rest)
  }

  // ----- one group

  lemma SplitBits(u: nat, v: nat, w: nat, x: nat, y: nat, z: nat)
    requires u < 64 && v < 4 && w < 16 && x < 16 && y < 4 && z < 64
    ensures var n := (4 * u + v) * 65536 + (16 * w + x) * 256 + (64 * y + z);
            n / 262144 % 64 == u && n / 4096 % 64 == 16 * v + w && n / 64 % 64 == 4 * x + y && n % 64 == z
  {
    var n := (4 * u + v) * 65536 + (16 * w + x) * 256 + (64 * y + z);
    var high := 64 * u + 16 * v + w;
    Quotients(n, u, 65536 * v + 4096 * w + 256 * x + 64 * y + z, high, 256 * x + 64 * y + z);
    LastSextets(n, high, 4 * x + y, z);
    assert high == 64 * u + (16 * v + w);
  }

  lemma Quotients(n: nat, q: nat, r: nat, q': nat, r': nat)
    requires n == 262144 * q + r && r < 262144 && n == 4096 * q' + r' && r' < 4096
    ensures n / 262144 == q && n / 4096 == q'
  {
  }

  lemma LastSextets(n: nat, q: nat, a: nat, z: nat)
    requires n == 64 * (64 * q + a) + z && a < 64 && z < 64
    ensures n / 64 % 64 == a && n % 64 == z
  {
    assert n / 64 == 64 * q + a;
  }

  lemma SplitGroup(b0: nat, b1: nat, b2: nat)
    requires b0 < 256 && b1 < 256 && b2 < 256
    ensures var n := b0 * 65536 + b1 * 256 + b2;
            && n / 262144 % 64 == b0 / 4 && n / 4096 % 64 == b0 % 4 * 16 + b1 / 16
            && n / 64 % 64 == b1 % 16 * 4 + b2 / 64 && n % 64 == b2 % 64
  {
    SplitBits(b0 / 4, b0 % 4, b1 / 16, b1 % 16, b2 / 64, b2 % 64);
    assert 4 * (b0 / 4) + b0 % 4 == b0 && 16 * (b1 / 16) + b1 % 16 == b1 && 64 * (b2 / 64) + b2 % 64 == b2;
  }

  lemma JoinGroup(b0: nat, b1: nat, b2: nat)
    requires b0 < 256 && b1 < 256 && b2 < 256
    ensures var v0, v1, v2, v3 := b0 / 4, b0 % 4 * 16 + b1 / 16, b1 % 16 * 4 + b2 / 64, b2 % 64;
            v0 * 4 + v1 / 16 == b0 && v1 % 16 * 16 + v2 / 4 == b1 && v2 % 4 * 64 + v3 == b2
  {
  }

  lemma SplitThree(v0: nat, v1: nat, v2: nat, v3: nat)
    requires v0 < 64 && v1 < 64 && v2 < 64 && v3 < 64
    ensures var b0, b1, b2 := v0 * 4 + v1 / 16, v1 % 16 * 16 + v2 / 4, v2 % 4 * 64 + v3;
            && b0 < 256 && b1 < 256 && b2 < 256
            && b0 / 4 == v0 && b0 % 4 * 16 + b1 / 16 == v1 && b1 % 16 * 4 + b2 / 64 == v2 && b2 % 64 == v3
  {
  }

  lemma GroupLetters(b0: nat, b1: nat, b2: nat)
    requires b0 < 256 && b1 < 256 && b2 < 256
    ensures Group(b0, b1, b2) == [Letter(b0 / 4), Letter(b0 % 4 * 16 + b1 / 16), Letter(b1 % 16 * 4 + b2 / 64), Letter(b2 % 64)]
  {
    hide Letter;
    SplitGroup(b0, b1, b2);
  }

  lemma GroupDecodes(b0: nat, b1: nat, b2: nat)
    requires b0 < 256 && b1 < 256 && b2 < 256
    ensures var g := Group(b0, b1, b2);
            && (forall i | 0 <= i < 4 :: Sextet(g[i]) >= 0 && g[i] != '=')
            && Three(Sextet(g[0]), Sextet(g[1]), Sextet(g[2]), Sextet(g[3])) == [b0 as char, b1 as char, b2 as char]
            && (b2 == 0 ==> Sextet(g[2]) % 4 == 0) && (b1 == 0 ==> Sextet(g[1]) % 16 == 0)
  {
    hide Letter, Sextet, Group;
    GroupLetters(b0, b1, b2);
    JoinGroup(b0, b1, b2);
    SextetOfLetter(b0 / 4);
    SextetOfLetter(b0 % 4 * 16 + b1 / 16);
    SextetOfLetter(b1 % 16 * 4 + b2 / 64);
    SextetOfLetter(b2 % 64);
  }

  lemma GroupOfThree(v0: nat, v1: nat, v2: nat, v3: nat)
    requires v0 < 64 && v1 < 64 && v2 < 64 && v3 < 64
    ensures var s := Three(v0, v1, v2, v3);
            IsBytes(s) && Group(s[0] as int, s[1] as int, s[2] as int) == [Letter(v0), Letter(v1), Letter(v2), Letter(v3)]
  {
    hide Letter, Group;
    SplitThree(v0, v1, v2, v3);
    GroupLetters(v0 * 4 + v1 / 16, v1 % 16 * 16 + v2 / 4, v2 % 4 * 64 + v3);
  }

  // ----- round trips

  /** Every byte string is recovered. */
  lemma {:induction false} DecodeEncoded(data: string)
    requires IsBytes(data)
    ensures Decode(Encode(data)) == Some(data)
    decreases |data|
  {
    hide Group, Sextet, Letter, Three;
    if |data| == 1 {
      GroupDecodes(data[0] as int, 0, 0);
      OnePadded(data[0] as int);
      assert data == [data[0]];
    } else if |data| == 2 {
      GroupDecodes(data[0] as int, data[1] as int, 0);
      TwoPadded(data[0] as int, data[1] as int);
      assert data == [data[0], data[1]];
    } else if |data| >= 3 {
      var g, rest := Group(data[0] as int, data[1] as int, data[2] as int), Encode(data[3..]);
      GroupDecodes(data[0] as int, data[1] as int, data[2] as int);
      DecodeEncoded(data[3..]);
      assert (g + rest)[4..] == rest;
      assert [data[0], data[1], data[2]] + data[3..] == data;
    }
  }

  lemma OnePadded(b: nat)
    requires b < 256
    ensures DecodePadded(Group(b, 0, 0)[..2] + "==") == Some([b as char])
  {
    hide Group, Letter, Sextet;
    GroupDecodes(b, 0, 0);
  }

  lemma TwoPadded(b: nat, c: nat)
    requires b < 256 && c < 256
    ensures DecodePadded(Group(b, c, 0)[..3] + "=") == Some([b as char, c as char])
  {
    hide Group, Letter, Sextet;
    GroupDecodes(b, c, 0);
    NotALetter();
  }

  lemma NotALetter()
    ensures Sextet('=') < 0
  {
  }

  lemma PaddedIsEncoded(t: string)
    requires |t| == 4 && t[3] == '=' && DecodePadded(t).Some?
    ensures IsBytes(DecodePadded(t).value) && Encode(DecodePadded(t).value) == t
  {
    hide Letter, Group, Sextet;
    var v0, v1 := Sextet(t[0]), Sextet(t[1]);
    var v2 := if t[2] == '=' then 0 else Sextet(t[2]);
    GroupOfThree(v0, v1, v2, 0);
    assert v1 % 16 == 0 && v2 == 0 ==> v1 % 16 * 16 + v2 / 4 == 0;
    assert v2 % 4 == 0 ==> v2 % 4 * 64 + 0 == 0;
    if t[2] == '=' {
      assert t == [t[0], t[1]] + "==";
    } else {
      assert t == [t[0], t[1], t[2]] + "=";
    }
  }

  /** The decoder accepts nothing but what the encoder writes: a text decodes to `data` exactly when it is the
      encoding of `data`. */
  lemma {:induction false} DecodeExact(t: string, data: string)
    requires IsBytes(data)
    ensures Decode(t) == Some(data) <==> t == Encode(data)
  {
    hide Encode;
    DecodeEncoded(data);
    if Decode(t) == Some(data) {
      DecodedIsEncoded(t);
    }
  }

  lemma {:induction false} DecodedIsEncoded(t: string)
    requires Decode(t).Some?
    ensures IsBytes(Decode(t).value) && Encode(Decode(t).value) == t
    decreases |t|
  {
    hide Letter, Group, Sextet, DecodePadded;
    if t != "" {
      if |t| == 4 && t[3] == '=' {
        PaddedIsEncoded(t);
      } else {
        var v0, v1, v2, v3 := Sextet(t[0]), Sextet(t[1]), Sextet(t[2]), Sextet(t[3]);
        var rest := Decode(t[4..]).value;
        DecodedIsEncoded(t[4..]);
        GroupOfThree(v0, v1, v2, v3);
        assert (Three(v0, v1, v2, v3) + rest)[3..] == rest;
        assert t == [t[0], t[1], t[2], t[3]] + t[4..];
      }
    }
  }

  /** Four letters for every three bytes begun, letters everywhere but for one or two padding signs at the end. */
  lemma {:induction false} EncodedShape(data: string)
    requires IsBytes(data)
    ensures |Encode(data)| == (|data| + 2) / 3 * 4
    ensures forall i | 0 <= i < |Encode(data)| :: if i < (4 * |data| + 2) / 3 then Sextet(Encode(data)[i]) >= 0 else Encode(data)[i] == '='
    decreases |data|
  {
    hide Group, Sextet, Letter;
    if |data| == 1 {
      GroupDecodes(data[0] as int, 0, 0);
    } else if |data| == 2 {
      GroupDecodes(data[0] as int, data[1] as int, 0);
    } else if |data| >= 3 {
      GroupDecodes(data[0] as int, data[1] as int, data[2] as int);
      EncodedShape(data[3..]);
      assert (4 * |data[3..]| + 2) / 3 + 4 == (4 * |data| + 2) / 3;
      assert (|data[3..]| + 2) / 3 + 1 == (|data| + 2) / 3;
    }
  }
}
