/**
 * Base64 as the converter uses it: the alphabet and padding of section 4 of
 * RFC 4648, the shape test `^[A-Za-z0-9+/]*={0,2}$` applied with Python's
 * `re.match`, and the decoder behind Python's `base64.b64decode` in its
 * default (non-validating) mode. The encoder is the reference partner of the
 * decoder.
 */
module Base64 {
  import opened Wrappers

  type byte = x: int | 0 <= x < 256
  type sextet = x: int | 0 <= x < 64

  predicate IsAlphabetChar(c: char)
  {
    ('A' <= c <= 'Z') || ('a' <= c <= 'z') || ('0' <= c <= '9') || c == '+' || c == '/'
  }

  predicate AllAlphabet(s: string)
  {
    forall i | 0 <= i < |s| :: IsAlphabetChar(s[i])
  }

  /** The value of an alphabet character (Table 1 of RFC 4648). */
  function CharValue(c: char): sextet
    requires IsAlphabetChar(c)
  {
    if 'A' <= c <= 'Z' then c as int - 'A' as int
    else if 'a' <= c <= 'z' then c as int - 'a' as int + 26
    else if '0' <= c <= '9' then c as int - '0' as int + 52
    else if c == '+' then 62
    else 63
  }

  /** The alphabet character of a value; CharValue undoes it. */
  function ValueChar(v: sextet): (c: char)
    ensures IsAlphabetChar(c) && CharValue(c) == v
  {
    if v < 26 then ('A' as int + v) as char
    else if v < 52 then ('a' as int + v - 26) as char
    else if v < 62 then ('0' as int + v - 52) as char
    else if v == 62 then '+'
    else '/'
  }

  function Values(d: string): seq<sextet>
    requires AllAlphabet(d)
  {
    seq(|d|, i requires 0 <= i < |d| => CharValue(d[i]))
  }

  function Chars(v: seq<sextet>): string
  {
    seq(|v|, i requires 0 <= i < |v| => ValueChar(v[i]))
  }

  function Pads(k: nat): string
  {
    seq(k, _ => '=')
  }

  function NewlineIf(nl: bool): string
  {
    if nl then "\n" else ""
  }

  /** Number of `=` at the end of `s`. */
  function TrailingPads(s: string): (k: nat)
    ensures k <= |s|
    decreases |s|
  {
    if s != [] && s[|s| - 1] == '=' then TrailingPads(s[..|s| - 1]) + 1 else 0
  }

  /**
   * `re.match(r'^[A-Za-z0-9+/]*={0,2}$', s)` succeeds. Without the MULTILINE
   * flag, Python's `$` matches at the end of the text and also just before a
   * newline that ends it.
   */
  predicate MatchesPattern(s: string)
  {
    var body := if s != [] && s[|s| - 1] == '\n' then s[..|s| - 1] else s;
    var k := TrailingPads(body);
    k <= 2 && AllAlphabet(body[..|body| - k])
  }

  /** `s` is alphabet text `d`, then `k <= 2` pads, then possibly one newline. */
  predicate Shaped(s: string, d: string, k: nat, nl: bool)
  {
    AllAlphabet(d) && k <= 2 && s == d + Pads(k) + NewlineIf(nl)
  }

  lemma {:induction false} TrailingPadsSplit(s: string)
    ensures s == s[..|s| - TrailingPads(s)] + Pads(TrailingPads(s))
    decreases |s|
  {
    if s != [] && s[|s| - 1] == '=' {
      var s' := s[..|s| - 1];
      TrailingPadsSplit(s');
      var k := TrailingPads(s');
      assert Pads(k + 1) == Pads(k) + ['='];
      assert s == s' + ['='];
      assert s'[..|s'| - k] == s[..|s| - (k + 1)];
    }
  }

  lemma {:induction false} TrailingPadsOf(d: string, k: nat)
    requires AllAlphabet(d)
    ensures TrailingPads(d + Pads(k)) == k
    decreases k
  {
    if k == 0 {
      assert d + Pads(0) == d;
      if d != [] {
        assert IsAlphabetChar(d[|d| - 1]);
      }
    } else {
      assert (d + Pads(k))[..|d + Pads(k)| - 1] == d + Pads(k - 1);
      TrailingPadsOf(d, k - 1);
    }
  }

  lemma PatternHasShape(s: string)
    requires MatchesPattern(s)
    ensures exists d: string, k: nat, nl: bool :: Shaped(s, d, k, nl)
  {
    var nl := s != [] && s[|s| - 1] == '\n';
    var body := if nl then s[..|s| - 1] else s;
    assert s == body + NewlineIf(nl);
    var k := TrailingPads(body);
    TrailingPadsSplit(body);
    assert Shaped(s, body[..|body| - k], k, nl);
  }

  lemma ShapeMatchesPattern(s: string, d: string, k: nat, nl: bool)
    requires Shaped(s, d, k, nl)
    ensures MatchesPattern(s)
  {
    var b := d + Pads(k);
    if b != [] {
      assert b[|b| - 1] == '=' || IsAlphabetChar(b[|b| - 1]);
    }
    var body := if s != [] && s[|s| - 1] == '\n' then s[..|s| - 1] else s;
    assert body == b;
    TrailingPadsOf(d, k);
    assert body[..|body| - k] == d;
  }

  /** The pattern test accepts exactly the texts of the regular expression's shape. */
  lemma PatternIff(s: string)
    ensures MatchesPattern(s) <==> exists d: string, k: nat, nl: bool :: Shaped(s, d, k, nl)
  {
    if MatchesPattern(s) {
      PatternHasShape(s);
    }
    if exists d: string, k: nat, nl: bool :: Shaped(s, d, k, nl) {
      var d: string, k: nat, nl: bool :| Shaped(s, d, k, nl);
      ShapeMatchesPattern(s, d, k, nl);
    }
  }

  lemma ShapedCharAt(s: string, d: string, k: nat, nl: bool, i: nat)
    requires Shaped(s, d, k, nl) && i < |s|
    ensures if i < |d| then IsAlphabetChar(s[i])
      else if i < |d| + k then s[i] == '='
      else nl && i == |s| - 1 && s[i] == '\n'
  {
    if i < |d| {
      assert s[i] == d[i];
    } else if i < |d| + k {
      assert s[i] == Pads(k)[i - |d|];
    }
  }

  /**
   * What the pattern accepts: only alphabet characters and pads, with a final
   * newline allowed; no alphabet character after a pad; at most two pads.
   */
  lemma MatchingText(s: string)
    ensures MatchesPattern(s) ==>
      (forall i | 0 <= i < |s| :: IsAlphabetChar(s[i]) || s[i] == '=' || (i == |s| - 1 && s[i] == '\n'))
    ensures MatchesPattern(s) ==>
      (forall i, j | 0 <= i < j < |s| && s[i] == '=' :: !IsAlphabetChar(s[j]))
    ensures MatchesPattern(s) ==>
      (forall i | 0 <= i && i + 2 < |s| && s[i] == '=' && s[i + 1] == '=' :: s[i + 2] != '=')
  {
    if MatchesPattern(s) {
      PatternHasShape(s);
      var d: string, k: nat, nl: bool :| Shaped(s, d, k, nl);
      forall i | 0 <= i < |s|
        ensures if i < |d| then IsAlphabetChar(s[i])
          else if i < |d| + k then s[i] == '='
          else nl && i == |s| - 1 && s[i] == '\n'
      {
        ShapedCharAt(s, d, k, nl, i);
      }
    }
  }

  /**
   * The sextets CPython's `binascii.a2b_base64` keeps in non-strict mode,
   * scanning left to right: characters outside the alphabet are skipped; a pad
   * is counted only once two characters of the current quantum are in, and a
   * pad that completes the quantum ends decoding; text that ends inside a
   * quantum is an error ("Incorrect padding"), None here.
   */
  function Scan(s: string, acc: seq<sextet>, pads: nat): Option<seq<sextet>>
    decreases |s|
  {
    if s == [] then
      if |acc| % 4 == 0 then Some(acc) else None
    else if s[0] == '=' then
      if |acc| % 4 >= 2 && |acc| % 4 + pads + 1 >= 4 then Some(acc)
      else Scan(s[1..], acc, if |acc| % 4 >= 2 then pads + 1 else pads)
    else if IsAlphabetChar(s[0]) then
      Scan(s[1..], acc + [CharValue(s[0])], 0)
    else
      Scan(s[1..], acc, pads)
  }

  /**
   * Bytes from sextets, three per full quantum; a trailing quantum of two or
   * three sextets gives one or two bytes and its unused low bits are dropped.
   */
  function SextetsToBytes(v: seq<sextet>): seq<byte>
    decreases |v|
  {
    if |v| >= 4 then
      QuantumBytes(v[..4]) + SextetsToBytes(v[4..])
    else if |v| >= 2 then
      QuantumBytes(v)
    else
      []
  }

  /** The bytes of one quantum of two to four sextets. */
  function QuantumBytes(v: seq<sextet>): seq<byte>
    requires 2 <= |v| <= 4
  {
    var v0: int := v[0];
    var v1: int := v[1];
    var v2: int := if |v| > 2 then v[2] else 0;
    var v3: int := if |v| > 3 then v[3] else 0;
    var q: seq<byte> := [v0 * 4 + v1 / 16, (v1 % 16) * 16 + v2 / 4, (v2 % 4) * 64 + v3];
    q[..|v| - 1]
  }

  predicate IsAscii(s: string)
  {
    forall i | 0 <= i < |s| :: s[i] as int < 128
  }

  /**
   * `base64.b64decode(s)` for a text `s`: a non-ASCII text is refused before
   * decoding, and None stands for every exception the call raises.
   */
  function Decode(s: string): Option<seq<byte>>
  {
    if !IsAscii(s) then None
    else
      match Scan(s, [], 0)
      case None => None
      case Some(v) => Some(SextetsToBytes(v))
  }

  /** Padding the decoder accepts after `r = |data| % 4` data characters and `k` pads. */
  predicate PaddingAccepted(r: nat, k: nat)
  {
    r == 0 || (r == 2 && k >= 2) || (r == 3 && k >= 1)
  }

  lemma {:induction false} ScanData(d: string, t: string, acc: seq<sextet>, pads: nat)
    requires AllAlphabet(d) && d != []
    ensures Scan(d + t, acc, pads) == Scan(t, acc + Values(d), 0)
    decreases |d|
  {
    assert (d + t)[0] == d[0] && (d + t)[1..] == d[1..] + t;
    if |d| == 1 {
      assert d[1..] + t == t;
      assert Values(d) == [CharValue(d[0])];
    } else {
      ScanData(d[1..], t, acc + [CharValue(d[0])], 0);
      assert Values(d) == [CharValue(d[0])] + Values(d[1..]);
      assert acc + [CharValue(d[0])] + Values(d[1..]) == acc + Values(d);
    }
  }

  lemma ScanNewline(v: seq<sextet>, pads: nat, nl: bool)
    ensures Scan(NewlineIf(nl), v, pads) == if |v| % 4 == 0 then Some(v) else None
  {
    if nl {
      assert "\n"[1..] == [];
    }
  }

  lemma ScanPads(v: seq<sextet>, k: nat, nl: bool)
    requires k <= 2
    ensures Scan(Pads(k) + NewlineIf(nl), v, 0)
      == if PaddingAccepted(|v| % 4, k) then Some(v) else None
  {
    var r := |v| % 4;
    var t := Pads(k) + NewlineIf(nl);
    ScanNewline(v, 0, nl);
    if k == 0 {
      assert t == NewlineIf(nl);
    } else if k == 1 {
      assert t[0] == '=' && t[1..] == NewlineIf(nl);
      ScanNewline(v, if r >= 2 then 1 else 0, nl);
    } else {
      assert t[0] == '=' && t[1..] == ['='] + NewlineIf(nl);
      var t1 := t[1..];
      assert t1[0] == '=' && t1[1..] == NewlineIf(nl);
      if r < 2 {
        assert Scan(t, v, 0) == Scan(t1, v, 0);
        assert Scan(t1, v, 0) == Scan(NewlineIf(nl), v, 0);
      } else if r == 2 {
        assert Scan(t, v, 0) == Scan(t1, v, 1);
      }
    }
  }

  lemma AlphabetIsAscii(d: string, k: nat, nl: bool)
    requires AllAlphabet(d)
    ensures IsAscii(d + Pads(k) + NewlineIf(nl))
  {
    var s := d + Pads(k) + NewlineIf(nl);
    forall i | 0 <= i < |s|
      ensures s[i] as int < 128
    {
      if i < |d| {
        assert s[i] == d[i];
      } else if i < |d| + k {
        assert s[i] == '=';
      } else {
        assert s[i] == '\n';
      }
    }
  }

  /**
   * On text of the pattern's shape, decoding fails exactly on bad padding, and
   * otherwise yields the bytes of the data characters; extra pads after a full
   * quantum and the final newline are ignored.
   */
  lemma DecodeShaped(s: string, d: string, k: nat, nl: bool)
    requires Shaped(s, d, k, nl)
    ensures Decode(s) == if PaddingAccepted(|d| % 4, k)
      then Some(SextetsToBytes(Values(d))) else None
  {
    AlphabetIsAscii(d, k, nl);
    var t := Pads(k) + NewlineIf(nl);
    assert s == d + t;
    if d == [] {
      assert Values(d) == [];
      assert s == t;
    } else {
      ScanData(d, t, [], 0);
      assert [] + Values(d) == Values(d);
    }
    ScanPads(Values(d), k, nl);
  }

  /** The three or fewer bytes at the start of `b`, as four or fewer sextets. */
  function QuantumOf(b: seq<byte>): (r: seq<sextet>)
    requires 1 <= |b| <= 3
    ensures |r| == |b| + 1
  {
    var b0: int := b[0];
    var b1: int := if |b| > 1 then b[1] else 0;
    var b2: int := if |b| > 2 then b[2] else 0;
    var q: seq<sextet> := [b0 / 4, (b0 % 4) * 16 + b1 / 16, (b1 % 16) * 4 + b2 / 64, b2 % 64];
    q[..|b| + 1]
  }

  function EncodeSextets(b: seq<byte>): seq<sextet>
    decreases |b|
  {
    if |b| >= 3 then QuantumOf(b[..3]) + EncodeSextets(b[3..])
    else if |b| > 0 then QuantumOf(b)
    else []
  }

  /** Standard base64 with `=` padding (section 4 of RFC 4648). */
  function Encode(b: seq<byte>): string
  {
    Chars(EncodeSextets(b)) + Pads((3 - |b| % 3) % 3)
  }

  lemma QuantumDecodes(b: seq<byte>)
    requires 1 <= |b| <= 3
    ensures SextetsToBytes(QuantumOf(b)) == b
  {
    var v := QuantumOf(b);
    if |v| == 4 {
      assert v[..4] == v && v[4..] == [];
    }
    assert SextetsToBytes(v) == QuantumBytes(v);
    var b0: int := b[0];
    var b1: int := if |b| > 1 then b[1] else 0;
    var b2: int := if |b| > 2 then b[2] else 0;
    RegroupBits(b0, b1, b2);
    var q := QuantumBytes(v);
    assert |q| == |b|;
    forall i | 0 <= i < |b|
      ensures q[i] == b[i]
    {
    }
  }

  /** Regrouping three bytes into four sextets and back gives the bytes again. */
  lemma RegroupBits(b0: int, b1: int, b2: int)
    requires 0 <= b0 < 256 && 0 <= b1 < 256 && 0 <= b2 < 256
    ensures var v1 := (b0 % 4) * 16 + b1 / 16;
      (b0 / 4) * 4 + v1 / 16 == b0 && (v1 % 16) * 16 == (b1 / 16) * 16
    ensures var v2 := (b1 % 16) * 4 + b2 / 64;
      (b1 / 16) * 16 + v2 / 4 == b1 && (v2 % 4) * 64 + b2 % 64 == b2
  {
  }

  lemma {:induction false} EncodeSextetsLength(b: seq<byte>)
    ensures |EncodeSextets(b)| % 4 == [0, 2, 3][|b| % 3]
    decreases |b|
  {
    if |b| >= 3 {
      EncodeSextetsLength(b[3..]);
      var n := |b[3..]|;
      var m := |EncodeSextets(b[3..])|;
      assert |EncodeSextets(b)| == m + 4;
      ModuloStep(n, m);
    }
  }

  lemma ModuloStep(n: nat, m: nat)
    ensures (n + 3) % 3 == n % 3 && (m + 4) % 4 == m % 4
  {
  }

  lemma {:induction false} EncodeSextetsDecode(b: seq<byte>)
    ensures SextetsToBytes(EncodeSextets(b)) == b
    decreases |b|
  {
    if |b| >= 3 {
      var q := QuantumOf(b[..3]);
      var rest := EncodeSextets(b[3..]);
      QuantumDecodes(b[..3]);
      EncodeSextetsDecode(b[3..]);
      var v := q + rest;
      assert v[..4] == q && v[4..] == rest;
      assert SextetsToBytes(v) == SextetsToBytes(q) + SextetsToBytes(rest);
      assert b[..3] + b[3..] == b;
    } else if |b| > 0 {
      QuantumDecodes(b);
    }
  }

  lemma ValuesOfChars(v: seq<sextet>)
    ensures AllAlphabet(Chars(v)) && Values(Chars(v)) == v
  {
  }

  /** Decoding undoes encoding, for every byte string. */
  lemma RoundTrip(b: seq<byte>)
    ensures Decode(Encode(b)) == Some(b)
  {
    var v := EncodeSextets(b);
    var d := Chars(v);
    var k := (3 - |b| % 3) % 3;
    ValuesOfChars(v);
    EncodePaddingAccepted(b);
    assert Encode(b) == d + Pads(k) + NewlineIf(false);
    DecodeShaped(Encode(b), d, k, false);
    EncodeSextetsDecode(b);
  }

  /** The encoder writes as many pads as its last quantum needs. */
  lemma EncodePaddingAccepted(b: seq<byte>)
    ensures PaddingAccepted(|EncodeSextets(b)| % 4, (3 - |b| % 3) % 3)
  {
    EncodeSextetsLength(b);
    var n := |b| % 3;
    var r := |EncodeSextets(b)| % 4;
    if n == 0 {
      assert r == 0;
    } else if n == 1 {
      assert r == 2 && (3 - n) % 3 == 2;
    } else {
      assert r == 3 && (3 - n) % 3 == 1;
    }
  }

  /** What the encoder produces passes the pattern test. */
  lemma EncodeMatchesPattern(b: seq<byte>)
    ensures MatchesPattern(Encode(b))
  {
    var v := EncodeSextets(b);
    ValuesOfChars(v);
    assert Shaped(Encode(b), Chars(v), (3 - |b| % 3) % 3, false);
    PatternIff(Encode(b));
  }
}
