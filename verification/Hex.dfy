// src/formatting/mod.rs: hex with a four-byte checksum.
module Hex {
  import opened Bytes
  import opened Ids

  const CHECKSUM_LENGTH: nat := 4

  /** Lower-case digits (section 8 of RFC 4648). */
  function Digit(n: nat): char
    requires n < 16
  {
    if n < 10 then '0' + n as char else 'a' + (n - 10) as char
  }

  function Lower(c: char): char {
    if 'A' <= c <= 'Z' then c + ('a' - 'A') else c
  }

  /** The value of a digit of either case. */
  function DigitValue(c: char): (r: Option<nat>)
    ensures r.Some? ==> r.value < 16
  {
    if '0' <= c <= '9' then Some((c - '0') as nat)
    else if 'a' <= c <= 'f' then Some((c - 'a') as nat + 10)
    else if 'A' <= c <= 'F' then Some((c - 'A') as nat + 10)
    else None
  }

  function Encode(b: Bytes): string {
    if b == [] then "" else [Digit(b[0] / 16), Digit(b[0] % 16)] + Encode(b[1..])
  }

  function Decode(s: string): Option<Bytes> {
    if s == [] then Some([])
    else if |s| == 1 then None
    else
      match (DigitValue(s[0]), DigitValue(s[1]), Decode(s[2..]))
      case (Some(h), Some(l), Some(b)) => Some([16 * h + l] + b)
      case _ => None
  }

  lemma DigitIff(c: char, n: nat)
    requires n < 16
    ensures DigitValue(c) == Some(n) <==> Lower(c) == Digit(n)
    ensures Digit(n) != 'x'
  {
    assert 'a' - 'A' == 32 as char;
  }

  function LowerAll(s: string): (t: string)
    ensures |t| == |s| && forall i :: 0 <= i < |s| ==> t[i] == Lower(s[i])
  {
    if s == [] then [] else [Lower(s[0])] + LowerAll(s[1..])
  }

  /** Decoding inverts encoding, accepts either case, and accepts nothing else. */
  lemma {:induction false} DecodeIff(s: string, b: Bytes)
    ensures Decode(s) == Some(b) <==> LowerAll(s) == Encode(b)
  {
    if |s| >= 2 && b != [] {
      var h, l := b[0] / 16, b[0] % 16;
      DecodeIff(s[2..], b[1..]);
      DigitIff(s[0], h);
      DigitIff(s[1], l);
      assert LowerAll(s) == [Lower(s[0]), Lower(s[1])] + LowerAll(s[2..]);
      assert Encode(b) == [Digit(h), Digit(l)] + Encode(b[1..]);
      assert LowerAll(s) == Encode(b) <==>
             Lower(s[0]) == Digit(h) && Lower(s[1]) == Digit(l) && LowerAll(s[2..]) == Encode(b[1..]) by {
        assert LowerAll(s)[2..] == LowerAll(s[2..]) && Encode(b)[2..] == Encode(b[1..]);
      }
      assert b == [16 * h + l] + b[1..];
      if Decode(s) == Some(b) {
        var x, y, t := DigitValue(s[0]).value, DigitValue(s[1]).value, Decode(s[2..]).value;
        assert ([16 * x + y] + t)[0] == b[0] && ([16 * x + y] + t)[1..] == t;
        assert x == h && y == l;
      }
    }
  }

  /** The digits of n < 16, of either case. */
  predicate Spells(c: char, n: nat)
    requires n < 16
  {
    c == "0123456789abcdef"[n] || c == "0123456789ABCDEF"[n]
  }

  lemma DigitSpells(c: char, n: nat)
    requires n < 16
    ensures Digit(n) == "0123456789abcdef"[n]
    ensures DigitValue(c) == Some(n) <==> Spells(c, n)
  {
  }

  /** Every byte becomes two lower-case digits, the high one first. */
  lemma {:induction false} EncodeDigits(b: Bytes, i: nat)
    requires i < |b|
    ensures |Encode(b)| == 2 * |b|
    ensures Encode(b)[2 * i] == "0123456789abcdef"[b[i] / 16]
    ensures Encode(b)[2 * i + 1] == "0123456789abcdef"[b[i] % 16]
  {
    DigitSpells('0', b[0] / 16);
    DigitSpells('0', b[0] % 16);
    var two := [Digit(b[0] / 16), Digit(b[0] % 16)];
    assert Encode(b) == two + Encode(b[1..]);
    if i > 0 {
      EncodeDigits(b[1..], i - 1);
    } else {
      EncodeLength(b[1..]);
    }
  }

  lemma {:induction false} EncodeLength(b: Bytes)
    ensures |Encode(b)| == 2 * |b|
  {
    if b != [] {
      EncodeLength(b[1..]);
    }
  }

  /** Text decodes exactly if it spells two digits of either case for every byte, the high one first. */
  lemma {:induction false} DecodeSpells(s: string, b: Bytes)
    ensures Decode(s) == Some(b) <==>
            && |s| == 2 * |b|
            && forall i :: 0 <= i < |b| ==> Spells(s[2 * i], b[i] / 16) && Spells(s[2 * i + 1], b[i] % 16)
  {
    if |s| >= 2 && b != [] {
      DigitSpells(s[0], b[0] / 16);
      DigitSpells(s[1], b[0] % 16);
      DecodeSpells(s[2..], b[1..]);
      DecodeFirst(s, b);
      if |s| == 2 * |b| {
        SpellsTail(s, b);
      }
    }
  }

  lemma DecodeFirst(s: string, b: Bytes)
    requires |s| >= 2 && b != []
    ensures Decode(s) == Some(b) <==>
            && DigitValue(s[0]) == Some(b[0] / 16) && DigitValue(s[1]) == Some(b[0] % 16)
            && Decode(s[2..]) == Some(b[1..])
  {
    if Decode(s) == Some(b) {
      var x, y, t := DigitValue(s[0]).value, DigitValue(s[1]).value, Decode(s[2..]).value;
      assert ([16 * x + y] + t)[0] == b[0] && ([16 * x + y] + t)[1..] == t;
    }
    assert b == [16 * (b[0] / 16) + b[0] % 16] + b[1..];
  }

  predicate SpelledFrom(s: string, b: Bytes, k: nat)
    requires |s| == 2 * |b|
  {
    forall i :: k <= i < |b| ==> Spells(s[2 * i], b[i] / 16) && Spells(s[2 * i + 1], b[i] % 16)
  }

  lemma SpellsTail(s: string, b: Bytes)
    requires b != [] && |s| == 2 * |b|
    ensures SpelledFrom(s[2..], b[1..], 0) <==> SpelledFrom(s, b, 1)
  {
    var t, c := s[2..], b[1..];
    if SpelledFrom(t, c, 0) {
      forall i | 1 <= i < |b|
        ensures Spells(s[2 * i], b[i] / 16) && Spells(s[2 * i + 1], b[i] % 16)
      {
        assert Spells(t[2 * (i - 1)], c[i - 1] / 16) && Spells(t[2 * (i - 1) + 1], c[i - 1] % 16);
      }
    }
    if SpelledFrom(s, b, 1) {
      forall i | 0 <= i < |c|
        ensures Spells(t[2 * i], c[i] / 16) && Spells(t[2 * i + 1], c[i] % 16)
      {
        assert Spells(s[2 * (i + 1)], b[i + 1] / 16) && Spells(s[2 * (i + 1) + 1], b[i + 1] % 16);
      }
    }
  }

  /** What is encoded is lower case already and holds no 'x'. */
  lemma {:induction false} EncodePlain(b: Bytes)
    ensures LowerAll(Encode(b)) == Encode(b) && 'x' !in Encode(b)
  {
    if b != [] {
      EncodePlain(b[1..]);
      DigitIff('x', b[0] / 16);
      DigitIff('x', b[0] % 16);
      assert Lower(Digit(b[0] / 16)) == Digit(b[0] / 16) && Lower(Digit(b[0] % 16)) == Digit(b[0] % 16);
      var two := [Digit(b[0] / 16), Digit(b[0] % 16)];
      assert Encode(b) == two + Encode(b[1..]);
    }
  }

  /** The last four bytes of the hash. */
  function Checksum(sha256: Hash, d: Bytes): (c: Bytes)
    ensures |c| == CHECKSUM_LENGTH
  {
    sha256(d)[32 - CHECKSUM_LENGTH..]
  }

  function EncodeWithChecksum(sha256: Hash, d: Bytes): string {
    Encode(d + Checksum(sha256, d))
  }

  /** Read as plain hex, the text is the data and the last four of the 32 bytes of its hash. */
  lemma CheckedText(sha256: Hash, d: Bytes)
    ensures Decode(EncodeWithChecksum(sha256, d)) == Some(d + sha256(d)[28..32])
  {
    var b := d + Checksum(sha256, d);
    EncodePlain(b);
    DecodeIff(Encode(b), b);
    assert sha256(d)[28..] == sha256(d)[28..32];
  }

  /** Fewer than four decoded bytes make the source panic. */
  predicate LongEnough(s: string) {
    Decode(s).Some? ==> |Decode(s).value| >= CHECKSUM_LENGTH
  }

  function DecodeWithChecksum(sha256: Hash, s: string): Result<Bytes>
    requires LongEnough(s)
  {
    match Decode(s)
    case None => Err(BadHex)
    case Some(b) =>
      var d := b[..|b| - CHECKSUM_LENGTH];
      if b[|b| - CHECKSUM_LENGTH..] == Checksum(sha256, d) then Ok(d) else Err(BadChecksum)
  }

  /** The data in front of a tail that is the last four bytes of its hash. */
  function Verified(sha256: Hash, b: Bytes): Option<Bytes> {
    if |b| >= 4 && b[|b| - 4..] == sha256(b[..|b| - 4])[28..32] then Some(b[..|b| - 4]) else None
  }

  /** Text is accepted exactly if it is hex whose last four bytes are the last four of the hash of the others. */
  lemma AcceptedIff(sha256: Hash, s: string)
    requires LongEnough(s)
    ensures Decode(s).None? ==> DecodeWithChecksum(sha256, s) == Err(BadHex)
    ensures Decode(s).Some? ==>
              var d := Verified(sha256, Decode(s).value);
              DecodeWithChecksum(sha256, s) == if d.Some? then Ok(d.value) else Err(BadChecksum)
  {
    if Decode(s).Some? {
      var b := Decode(s).value;
      var h := sha256(b[..|b| - 4]);
      assert h[28..] == h[28..32];
    }
  }

  /** A string is accepted with value d exactly when, up to the case of its digits, it is the encoding of d. */
  lemma DecodeWithChecksumIff(sha256: Hash, s: string, d: Bytes)
    requires LongEnough(s)
    ensures DecodeWithChecksum(sha256, s) == Ok(d) <==> LowerAll(s) == EncodeWithChecksum(sha256, d)
  {
    var b := d + Checksum(sha256, d);
    DecodeIff(s, b);
    assert b[..|b| - CHECKSUM_LENGTH] == d && b[|b| - CHECKSUM_LENGTH..] == Checksum(sha256, d);
    if DecodeWithChecksum(sha256, s) == Ok(d) {
      var c := Decode(s).value;
      assert c == c[..|c| - CHECKSUM_LENGTH] + c[|c| - CHECKSUM_LENGTH..];
    }
  }

  /** `trim_start_matches("0x")`: takes the prefix off as often as it is there. */
  function TrimPrefixes(s: string): string {
    if "0x" <= s then TrimPrefixes(s[2..]) else s
  }

  /** `n` prefixes one after another. */
  function Prefixes(n: nat): string {
    if n == 0 then "" else "0x" + Prefixes(n - 1)
  }

  lemma Regroup(a: string, b: string, c: string)
    ensures (a + b) + c == a + (b + c)
  {
  }

  /** Trimming takes off as many prefixes as there are and nothing else. */
  lemma {:induction false} TrimMeans(s: string) returns (n: nat)
    ensures s == Prefixes(n) + TrimPrefixes(s) && !("0x" <= TrimPrefixes(s))
    ensures !("0x" <= s) ==> TrimPrefixes(s) == s
  {
    if "0x" <= s {
      var m := TrimMeans(s[2..]);
      n := m + 1;
      Regroup("0x", Prefixes(m), TrimPrefixes(s[2..]));
      assert s == s[..2] + s[2..];
    } else {
      n := 0;
      assert s == "" + s;
    }
  }

  lemma TrimOnce(s: string)
    requires 'x' !in s
    ensures TrimPrefixes("0x" + s) == s
  {
    assert ("0x" + s)[2..] == s;
    if |s| >= 2 {
      assert s[1] in s;
    }
  }

  lemma VerifiedTail(sha256: Hash, d: Bytes)
    ensures Verified(sha256, d + sha256(d)[28..32]) == Some(d)
  {
    var b := d + sha256(d)[28..32];
    assert b[..|b| - 4] == d && b[|b| - 4..] == sha256(d)[28..32];
  }

  /** A checked text behind its prefix is trimmed to itself, long enough, and holds its data. */
  lemma PrefixedText(sha256: Hash, d: Bytes, s: string)
    requires s == "0x" + EncodeWithChecksum(sha256, d)
    ensures var t := TrimPrefixes(s);
            LongEnough(t) && Decode(t).Some? && Verified(sha256, Decode(t).value) == Some(d)
  {
    EncodePlain(d + Checksum(sha256, d));
    TrimOnce(EncodeWithChecksum(sha256, d));
    CheckedText(sha256, d);
    VerifiedTail(sha256, d);
  }
}
