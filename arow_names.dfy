/** The Arow wire-key codec: a backend field name of at most eight Latin-1
    characters packed into a 64-bit key, first character most significant,
    and the reverse unpacking used in generated code and diagnostics. */
module ArowNames {
  import opened Results

  /** sizeof(ulong): the number of characters a key can hold. */
  const KEY_BYTES: nat := 8
  const TWO_TO_THE_64: nat := 0x1_0000_0000_0000_0000

  type UInt64 = x: int | 0 <= x < TWO_TO_THE_64

  /** The failures an Arow generation run can raise (ArowException and the
      framework exceptions it lets through). */
  datatype ArowError =
    | InvalidFieldName(name: string)          // backend name too long or not Latin-1
    | MemberTypeNotSupported(typeName: string) // a field type the serializer cannot write
    | ArgumentIsNull(what: string)            // a null argument (assembly, or a null path part)
    | PathDoesNotExist(path: string)          // the configured root path is missing

  /** char.IsWhiteSpace: the Unicode space separators, line and paragraph
      separators, and the control characters U+0009..U+000D, U+0085. */
  predicate IsWhiteSpace(c: char)
  {
    var n := c as int;
    (9 <= n <= 13) || n == 0x20 || n == 0x85 || n == 0xA0 || n == 0x1680
    || (0x2000 <= n <= 0x200A) || n == 0x2028 || n == 0x2029 || n == 0x202F
    || n == 0x205F || n == 0x3000
  }

  /** string.IsNullOrWhiteSpace; a null string is represented by "". */
  predicate IsBlank(s: string)
  {
    forall i :: 0 <= i < |s| ==> IsWhiteSpace(s[i])
  }

  /** Every character fits in one byte. */
  predicate IsLatin1(s: string)
  {
    forall i :: 0 <= i < |s| ==> s[i] as int <= 0xFF
  }

  /** Every character is a non-zero byte: the names the codec reproduces. */
  predicate IsKeyText(s: string)
  {
    forall i :: 0 <= i < |s| ==> 1 <= s[i] as int <= 0xFF
  }

  function Pow256(n: nat): (r: nat)
    ensures r >= 1
  {
    if n == 0 then 1 else 256 * Pow256(n - 1)
  }

  /** Big-endian byte packing: the sum of s[i] * 256^(|s|-1-i). */
  function Packed(s: string): nat
    requires IsLatin1(s)
  {
    if s == [] then 0 else (s[0] as int) * Pow256(|s| - 1) + Packed(s[1..])
  }

  /** GetName(string): the key of a backend name, or the error it raises. */
  function Encode(name: string): Result<UInt64, ArowError>
  {
    if IsBlank(name) then Ok(0)
    else if |name| > KEY_BYTES || !IsLatin1(name) then Err(InvalidFieldName(name))
    else
      PackedBound(name);
      Pow256Monotone(|name|, KEY_BYTES);
      Ok(Packed(name))
  }

  /** The characters held in the low n bytes of k, taken from the least
      significant byte upwards and stopping at the first zero byte. */
  function Unpack(k: nat, n: nat): string
  {
    if n == 0 || k % 256 == 0 then "" else Unpack(k / 256, n - 1) + [(k % 256) as char]
  }

  /** GetName(ulong). */
  function Decode(key: UInt64): string
  {
    Unpack(key, KEY_BYTES)
  }

  /** The byte of k at position j, counted from the least significant byte. */
  function ByteAt(k: nat, j: nat): (b: nat)
    ensures b < 256
  {
    if j == 0 then k % 256 else ByteAt(k / 256, j - 1)
  }

  /** The value of the m least significant bytes of k (k mod 256^m). */
  function LowBytes(k: nat, m: nat): nat
  {
    if m == 0 then 0 else LowBytes(k / 256, m - 1) * 256 + k % 256
  }

  lemma {:induction false} Pow256Monotone(m: nat, n: nat)
    requires m <= n
    ensures Pow256(m) <= Pow256(n)
  {
    if m < n {
      Pow256Monotone(m, n - 1);
    }
  }

  /** A packed name of n characters fits in 8*n bits. */
  lemma {:induction false} PackedBound(s: string)
    requires IsLatin1(s)
    ensures Packed(s) < Pow256(|s|)
  {
    if s != [] {
      var p := Pow256(|s| - 1);
      PackedBound(s[1..]);
      assert (s[0] as int) * p <= 255 * p;
    }
  }

  /** Appending one character shifts the packed value up by one byte:
      the step `result <<= 8; result |= c` of the encoding loop. */
  lemma {:induction false} PackedSnoc(s: string, c: char)
    requires IsLatin1(s) && c as int <= 0xFF
    ensures IsLatin1(s + [c])
    ensures Packed(s + [c]) == Packed(s) * 256 + c as int
  {
    assert IsLatin1(s + [c]) by {
      forall i | 0 <= i < |s + [c]| ensures (s + [c])[i] as int <= 0xFF {
        if i < |s| { assert (s + [c])[i] == s[i]; }
      }
    }
    if s != [] {
      var t, h := s[1..], s[0] as int;
      assert (s + [c])[0] == s[0] && (s + [c])[1..] == t + [c];
      PackedSnoc(t, c);
      var p := Pow256(|t|);
      assert Pow256(|s + [c]| - 1) == 256 * p;
      assert Packed(s + [c]) == h * (256 * p) + (Packed(t) * 256 + c as int);
      ShiftSum(h, p, Packed(t));
    }
  }

  lemma ShiftSum(h: int, p: int, q: int)
    ensures h * (256 * p) + q * 256 == (h * p + q) * 256
  {
  }

  /** Decoding never yields more than eight characters, and none of them is NUL. */
  lemma {:induction false} UnpackShape(k: nat, n: nat)
    ensures |Unpack(k, n)| <= n
    ensures IsKeyText(Unpack(k, n))
  {
    if n != 0 && k % 256 != 0 {
      UnpackShape(k / 256, n - 1);
      var u := Unpack(k / 256, n - 1);
      var c := (k % 256) as char;
      forall i | 0 <= i < |u + [c]| ensures 1 <= (u + [c])[i] as int <= 0xFF {
        if i < |u| { assert (u + [c])[i] == u[i]; }
      }
    }
  }

  /** Unpacking a packed name of non-zero bytes gives the name back,
      whenever it fits in the bytes examined. */
  lemma {:induction false} UnpackPacked(s: string, n: nat)
    requires IsKeyText(s) && |s| <= n
    ensures IsLatin1(s) && Unpack(Packed(s), n) == s
  {
    if s == [] {
    } else {
      var p := s[..|s| - 1];
      var c := s[|s| - 1];
      assert s == p + [c];
      assert IsKeyText(p) by {
        forall i | 0 <= i < |p| ensures 1 <= p[i] as int <= 0xFF { assert p[i] == s[i]; }
      }
      UnpackPacked(p, n - 1);
      PackedSnoc(p, c);
      ShiftDivMod(Packed(p), c as int);
    }
  }

  /** Shifting up by one byte and or-ing in c can be undone by / and %. */
  lemma ShiftDivMod(q: nat, c: nat)
    requires c < 256
    ensures (q * 256 + c) % 256 == c && (q * 256 + c) / 256 == q
  {
  }

  /** Packing the decoded name again gives the value of as many low bytes of
      the key as the name has characters (UnpackStopsAtZero says where the
      decoding ends). */
  lemma {:induction false} PackedUnpack(k: nat, n: nat)
    ensures IsLatin1(Unpack(k, n))
    ensures Packed(Unpack(k, n)) == LowBytes(k, |Unpack(k, n)|)
  {
    UnpackShape(k, n);
    var u := Unpack(k, n);
    assert IsLatin1(u) by {
      forall i | 0 <= i < |u| ensures u[i] as int <= 0xFF { }
    }
    if n != 0 && k % 256 != 0 {
      var v := Unpack(k / 256, n - 1);
      PackedUnpack(k / 256, n - 1);
      assert u == v + [(k % 256) as char];
      PackedSnoc(v, (k % 256) as char);
    }
  }

  /** Unpacking reads bytes from the low end: every byte it keeps is non-zero
      and lands, as a character, at the mirrored position. */
  lemma {:induction false} UnpackBytes(k: nat, n: nat)
    ensures var u := Unpack(k, n);
      forall j :: 0 <= j < |u| ==> ByteAt(k, j) != 0 && u[|u| - 1 - j] == ByteAt(k, j) as char
  {
    var u := Unpack(k, n);
    if n != 0 && k % 256 != 0 {
      var v := Unpack(k / 256, n - 1);
      UnpackBytes(k / 256, n - 1);
      assert u == v + [(k % 256) as char];
      forall j | 0 <= j < |u| ensures ByteAt(k, j) != 0 && u[|u| - 1 - j] == ByteAt(k, j) as char {
        if j > 0 {
          assert ByteAt(k, j) == ByteAt(k / 256, j - 1);
          assert u[|u| - 1 - j] == v[|v| - 1 - (j - 1)];
        }
      }
    }
  }

  /** Unpacking stops at the first zero byte or after n bytes: unless all n
      were taken, the byte after those kept is zero. */
  lemma {:induction false} UnpackStopsAtZero(k: nat, n: nat)
    ensures |Unpack(k, n)| == n || ByteAt(k, |Unpack(k, n)|) == 0
  {
    if n != 0 && k % 256 != 0 {
      UnpackStopsAtZero(k / 256, n - 1);
      assert |Unpack(k, n)| == |Unpack(k / 256, n - 1)| + 1;
    }
  }

  /** The key 0x410042 holds 'A', a zero byte and 'B': decoding keeps only
      the run below the zero byte. */
  lemma DecodeStopsAtZero()
    ensures Decode(0x41_0042) == "B"
  {
    UnpackBytes(0x41_0042, KEY_BYTES);
    UnpackStopsAtZero(0x41_0042, KEY_BYTES);
    var u := Decode(0x41_0042);
    assert ByteAt(0x41_0042, 0) == 0x42 && ByteAt(0x41_0042, 1) == 0;
    assert |u| != 0 by {
      UnpackStep(0x41_0042, KEY_BYTES);
    }
    assert |u| == 1;
  }

  /** The round trip: a non-blank name of one to eight non-zero Latin-1
      characters encodes to a non-zero key that decodes to the same name. */
  lemma RoundTrip(name: string)
    requires 1 <= |name| <= KEY_BYTES && IsKeyText(name) && !IsBlank(name)
    ensures Encode(name).Ok? && Encode(name).value != 0
    ensures Decode(Encode(name).value) == name
  {
    UnpackPacked(name, KEY_BYTES);
    assert Unpack(Packed(name), KEY_BYTES) == name;
  }

  /** GetName(string) (CodeGenerator.GetName): blank names give 0, names
      longer than eight characters or with a character above 0xFF fail, and
      any other name is packed one byte per character, first character most
      significant. */
  method GetName(name: string) returns (r: Result<UInt64, ArowError>)
    ensures IsBlank(name) ==> r == Ok(0)
    ensures !IsBlank(name) ==> (r.Err? <==> |name| > KEY_BYTES || !IsLatin1(name))
    ensures r.Err? ==> r.error == InvalidFieldName(name)
    ensures r.Ok? && !IsBlank(name) ==> IsLatin1(name) && r.value == Packed(name) < Pow256(|name|)
    ensures r == Encode(name)
  {
    if IsBlank(name) {
      return Ok(0);
    }
    var sl := |name|;
    if sl > KEY_BYTES {
      return Err(InvalidFieldName(name));
    }
    var result: nat := 0;
    var i := 0;
    while i < KEY_BYTES && i < |name|
      invariant 0 <= i <= |name|
      invariant IsLatin1(name[..i])
      invariant result == Packed(name[..i])
    {
      var c := name[i];
      if c as int > 0xFF {
        return Err(InvalidFieldName(name));
      }
      PackedSnoc(name[..i], c);
      assert name[..i + 1] == name[..i] + [c];
      // result < 256^i <= 2^56, so the shift loses no bits and the low byte is free for `|=`
      result := result * 256 + c as int;
      i := i + 1;
    }
    assert name[..i] == name;
    PackedBound(name);
    Pow256Monotone(|name|, KEY_BYTES);
    r := Ok(result);
  }

  /** Decoding yields at most eight non-zero bytes, the empty name for key 0,
      exactly the low bytes of the key that it read, and stops only at a zero
      byte or after eight bytes. */
  lemma DecodeShape(key: UInt64)
    ensures key == 0 ==> Decode(key) == ""
    ensures |Decode(key)| <= KEY_BYTES && IsKeyText(Decode(key))
    ensures IsLatin1(Decode(key)) && Packed(Decode(key)) == LowBytes(key, |Decode(key)|)
    ensures |Decode(key)| == KEY_BYTES || ByteAt(key, |Decode(key)|) == 0
  {
    UnpackShape(key, KEY_BYTES);
    PackedUnpack(key, KEY_BYTES);
    UnpackStopsAtZero(key, KEY_BYTES);
  }

  lemma UnpackStep(k: nat, m: nat)
    requires m > 0 && k % 256 != 0
    ensures Unpack(k, m) == Unpack(k / 256, m - 1) + [(k % 256) as char]
  {
  }

  lemma UnpackStop(k: nat, m: nat)
    requires m == 0 || k % 256 == 0
    ensures Unpack(k, m) == ""
  {
  }

  /** GetName(ulong): prepends the low byte of the key and shifts it right,
      at most eight times, stopping at the first zero byte. */
  method GetKeyName(key: UInt64) returns (result: string)
    ensures key == 0 ==> result == ""
    ensures |result| <= KEY_BYTES && IsKeyText(result)
    ensures IsLatin1(result) && Packed(result) == LowBytes(key, |result|)
    ensures |result| == KEY_BYTES || ByteAt(key, |result|) == 0
    ensures result == Decode(key)
  {
    result := "";
    var name: nat := key;
    var i := 0;
    while i < KEY_BYTES
      invariant 0 <= i <= KEY_BYTES
      invariant Unpack(name, KEY_BYTES - i) + result == Decode(key)
    {
      var c := name % 256;
      if c == 0 {
        break;
      }
      UnpackStep(name, KEY_BYTES - i);
      ghost var before := Unpack(name / 256, KEY_BYTES - i - 1);
      assert before + [c as char] + result == before + ([c as char] + result);
      result := [c as char] + result;
      name := name / 256;
      i := i + 1;
    }
    UnpackStop(name, KEY_BYTES - i);
    assert result == Decode(key);
    DecodeShape(key);
  }
}
