/** WireGuard keys: from standard base64 (RFC 4648, section 4) to the lower-case hex
    (section 8) of the device's configuration protocol. */
module KeyCodec {
  import opened Wrappers

  type Byte = b: int | 0 <= b < 256

  // ---------- base64 ----------

  function Letter(n: nat): (c: char)
    requires n < 64
    ensures Sextet(c) == Some(n) && c != '=' && c != '\n' && c != '\r'
  {
    if n < 26 then 'A' + n as char
    else if n < 52 then 'a' + (n - 26) as char
    else if n < 62 then '0' + (n - 52) as char
    else if n == 62 then '+'
    else '/'
  }

  function Sextet(c: char): (r: Option<nat>)
    ensures r.Some? ==> r.value < 64
  {
    if 'A' <= c <= 'Z' then Some((c - 'A') as int)
    else if 'a' <= c <= 'z' then Some((c - 'a') as int + 26)
    else if '0' <= c <= '9' then Some((c - '0') as int + 52)
    else if c == '+' then Some(62)
    else if c == '/' then Some(63)
    else None
  }

  /** The alphabet, by character codes: A to Z, a to z, 0 to 9, '+' and '/'. */
  lemma AlphabetExactly(n: nat, c: char)
    requires n < 64
    ensures Letter(n) as int ==
            if n < 26 then 65 + n else if n < 52 then 71 + n else if n < 62 then n - 4 else if n == 62 then 43 else 47
    ensures Sextet(c) == Some(n) <==> c == Letter(n)
    ensures Sextet(c).Some? <==> exists k :: 0 <= k < 64 && c == Letter(k)
  {
    if Sextet(c).Some? { LetterOfSextet(c); }
  }

  lemma LetterOfSextet(c: char)
    requires Sextet(c).Some?
    ensures Letter(Sextet(c).value) == c
  {
  }

  lemma PadIsNoLetter()
    ensures Sextet('=') == None
  {
  }

  /** Three bytes as four letters. */
  function Quad(a: Byte, b: Byte, c: Byte): (s: string)
    ensures |s| == 4
  {
    [Letter(a / 4), Letter(a % 4 * 16 + b / 16), Letter(b % 16 * 4 + c / 64), Letter(c % 64)]
  }

  /** The three bytes of four letters. */
  function Unquad(s: string): (b: seq<Byte>)
    requires AllLetters(s)
    ensures |b| == 3
  {
    var (p, q, r, t) := (Sextet(s[0]).value, Sextet(s[1]).value, Sextet(s[2]).value, Sextet(s[3]).value);
    [p * 4 + q / 16, q % 16 * 16 + r / 4, r % 4 * 64 + t]
  }

  predicate AllLetters(s: string) {
    |s| == 4 && forall i :: 0 <= i < 4 ==> Sextet(s[i]).Some?
  }

  lemma QuadOfUnquad(s: string)
    requires AllLetters(s)
    ensures var b := Unquad(s); Quad(b[0], b[1], b[2]) == s
  {
    hide Sextet, Letter;
    var (p, q, r, t) := (Sextet(s[0]).value, Sextet(s[1]).value, Sextet(s[2]).value, Sextet(s[3]).value);
    FullGroup(p, q, r, t);
    LetterOfSextet(s[0]);
    LetterOfSextet(s[1]);
    LetterOfSextet(s[2]);
    LetterOfSextet(s[3]);
    assert s == [Letter(p), Letter(q), Letter(r), Letter(t)];
  }

  lemma FullGroup(p: nat, q: nat, r: nat, t: nat)
    requires p < 64 && q < 64 && r < 64 && t < 64
    ensures var (a, b, c) := (p * 4 + q / 16, q % 16 * 16 + r / 4, r % 4 * 64 + t);
            a / 4 == p && a % 4 * 16 + b / 16 == q && b % 16 * 4 + c / 64 == r && c % 64 == t
  {
  }

  /** The bits of three bytes are those of four letters, the highest first. */
  lemma QuadBits(a: Byte, b: Byte, c: Byte)
    ensures var s := Quad(a, b, c);
            && AllLetters(s)
            && 262144 * Sextet(s[0]).value + 4096 * Sextet(s[1]).value + 64 * Sextet(s[2]).value + Sextet(s[3]).value
               == 65536 * a + 256 * b + c
  {
    hide Sextet, Letter;
    GroupBack(a, b, c);
    var (p, q, r, t) := (a / 4, a % 4 * 16 + b / 16, b % 16 * 4 + c / 64, c % 64);
    assert Quad(a, b, c) == [Letter(p), Letter(q), Letter(r), Letter(t)];
    QuadSum(a, b, c);
  }

  lemma QuadSum(a: Byte, b: Byte, c: Byte)
    ensures 262144 * (a / 4) + 4096 * (a % 4 * 16 + b / 16) + 64 * (b % 16 * 4 + c / 64) + c % 64
            == 65536 * a + 256 * b + c
  {
  }

  lemma UnquadOfQuad(a: Byte, b: Byte, c: Byte)
    ensures AllLetters(Quad(a, b, c)) && Unquad(Quad(a, b, c)) == [a, b, c]
  {
    hide Sextet, Letter;
    GroupBack(a, b, c);
    var (p, q, r, t) := (a / 4, a % 4 * 16 + b / 16, b % 16 * 4 + c / 64, c % 64);
    assert Quad(a, b, c) == [Letter(p), Letter(q), Letter(r), Letter(t)];
  }

  lemma GroupBack(a: Byte, b: Byte, c: Byte)
    ensures var (p, q, r, t) := (a / 4, a % 4 * 16 + b / 16, b % 16 * 4 + c / 64, c % 64);
            && p < 64 && q < 64 && r < 64
            && p * 4 + q / 16 == a && q % 16 * 16 + r / 4 == b && r % 4 * 64 + t == c
  {
  }

  function Encode(b: seq<Byte>): string {
    if b == [] then ""
    else if |b| == 1 then [Letter(b[0] / 4), Letter(b[0] % 4 * 16), '=', '=']
    else if |b| == 2 then [Letter(b[0] / 4), Letter(b[0] % 4 * 16 + b[1] / 16), Letter(b[1] % 16 * 4), '=']
    else Quad(b[0], b[1], b[2]) + Encode(b[3..])
  }

  /** Three bytes after three bytes; one or two at the end fill the top bits, padded. */
  lemma EncodeExactly(b: seq<Byte>)
    ensures |b| == 0 ==> Encode(b) == ""
    ensures |b| == 1 ==>
              && |Encode(b)| == 4 && Encode(b)[2..] == "==" && Sextet(Encode(b)[0]).Some? && Sextet(Encode(b)[1]).Some?
              && 64 * Sextet(Encode(b)[0]).value + Sextet(Encode(b)[1]).value == (b[0] as int) * 16
    ensures |b| == 2 ==>
              && |Encode(b)| == 4 && Encode(b)[3..] == "="
              && Sextet(Encode(b)[0]).Some? && Sextet(Encode(b)[1]).Some? && Sextet(Encode(b)[2]).Some?
              && 4096 * Sextet(Encode(b)[0]).value + 64 * Sextet(Encode(b)[1]).value + Sextet(Encode(b)[2]).value
                 == ((b[0] as int) * 256 + b[1] as int) * 4
    ensures |b| >= 3 ==> Encode(b) == Quad(b[0], b[1], b[2]) + Encode(b[3..])
  {
    hide Sextet, Letter, Quad;
  }

  function StripNewlines(s: string): string {
    if s == "" then ""
    else (if s[0] == '\n' || s[0] == '\r' then "" else [s[0]]) + StripNewlines(s[1..])
  }

  /** Line feeds and carriage returns are removed, wherever they are, and nothing else. */
  lemma {:induction false} StripJoins(a: string, b: string)
    ensures StripNewlines(a + b) == StripNewlines(a) + StripNewlines(b)
  {
    if a == "" {
      assert a + b == b;
    } else {
      StripFirst(a);
      StripFirst(a + b);
      hide StripNewlines;
      assert (a + b)[1..] == a[1..] + b;
      StripJoins(a[1..], b);
    }
  }

  lemma StripFirst(s: string)
    requires s != ""
    ensures StripNewlines(s) == (if s[0] as int in {10, 13} then "" else [s[0]]) + StripNewlines(s[1..])
    ensures StripNewlines("") == ""
  {
  }

  /** Whole groups of four, padding only at the very end; bits that do not make a whole
      byte are ignored. */
  function DecodeGroups(s: string): Option<seq<Byte>> {
    if s == "" then Some([])
    else if |s| < 4 then None
    else if AllLetters(s[..4]) then
      match DecodeGroups(s[4..])
      case None => None
      case Some(rest) => Some(Unquad(s[..4]) + rest)
    else if |s| > 4 then None
    else
      var (p, q, r) := (Sextet(s[0]), Sextet(s[1]), Sextet(s[2]));
      if p == None || q == None || s[3] != '=' then None
      else
        var first := p.value * 4 + q.value / 16;
        if r.Some? then Some([first, q.value % 16 * 16 + r.value / 4])
        else if s[2] == '=' then Some([first])
        else None
  }

  /** What can be decoded: letters, in fours, the last or the last two of which may be '='. */
  predicate WellFormed(s: string, pads: nat) {
    && |s| % 4 == 0 && pads <= 2 && (pads > 0 ==> |s| > 0)
    && (forall i :: 0 <= i < |s| - pads ==> Sextet(s[i]).Some?)
    && (forall i :: 0 <= i < |s| && i >= |s| - pads ==> s[i] == '=')
  }

  lemma {:induction false} DecodesExactly(s: string)
    ensures DecodeGroups(s).Some? <==> WellFormed(s, 0) || WellFormed(s, 1) || WellFormed(s, 2)
    decreases |s|
  {
    hide Sextet, Unquad, AllLetters, WellFormed;
    if |s| > 4 || (|s| == 4 && AllLetters(s[..4])) {
      DecodesExactly(s[4..]);
      AfterFour(s, 0);
      AfterFour(s, 1);
      AfterFour(s, 2);
    } else if |s| == 4 {
      LastFour(s);
    } else {
      FewerThanFour(s);
    }
  }

  lemma FewerThanFour(s: string)
    requires |s| < 4
    ensures WellFormed(s, 0) || WellFormed(s, 1) || WellFormed(s, 2) <==> s == ""
  {
  }

  lemma LastFour(s: string)
    requires |s| == 4 && !AllLetters(s[..4])
    ensures DecodeGroups(s).Some? <==> WellFormed(s, 0) || WellFormed(s, 1) || WellFormed(s, 2)
  {
    hide Sextet, Unquad;
    PadIsNoLetter();
    assert s[..4] == s;
    assert !WellFormed(s, 0);
    assert WellFormed(s, 1) <==> Sextet(s[0]).Some? && Sextet(s[1]).Some? && Sextet(s[2]).Some? && s[3] == '=';
    assert WellFormed(s, 2) <==> Sextet(s[0]).Some? && Sextet(s[1]).Some? && s[2] == '=' && s[3] == '=';
  }

  lemma AfterFour(s: string, pads: nat)
    requires |s| > 4 || (|s| == 4 && AllLetters(s[..4]))
    ensures WellFormed(s, pads) <==> AllLetters(s[..4]) && WellFormed(s[4..], pads)
  {
    hide Sextet;
    PadIsNoLetter();
    var t := s[4..];
    assert forall i :: 0 <= i < |t| ==> t[i] == s[i + 4];
    assert AllLetters(s[..4]) <==> forall i :: 0 <= i < 4 ==> Sextet(s[i]).Some?;
    if WellFormed(s, pads) {
      assert |s| == 4 ==> Sextet(s[3]).Some?;
      assert |s| - pads >= 4;
      forall i | 0 <= i < |t| && i >= |t| - pads ensures t[i] == '=' {
        assert s[i + 4] == '=';
      }
    }
    if AllLetters(s[..4]) && WellFormed(t, pads) {
      forall i | 0 <= i < |s| - pads ensures Sextet(s[i]).Some? {
        if i >= 4 { assert Sextet(t[i - 4]).Some?; }
      }
      forall i | 0 <= i < |s| && i >= |s| - pads ensures s[i] == '=' {
        assert i >= 4 && t[i - 4] == '=';
      }
    }
  }

  /** base64.StdEncoding.DecodeString: line breaks anywhere are skipped. */
  function Decode(s: string): Option<seq<Byte>> {
    DecodeGroups(StripNewlines(s))
  }

  // ---------- hex ----------

  function HexDigit(n: nat): (c: char)
    requires n < 16
    ensures HexValue(c) == Some(n) && ('0' <= c <= '9' || 'a' <= c <= 'f')
  {
    if n < 10 then '0' + n as char else 'a' + (n - 10) as char
  }

  function HexValue(c: char): (r: Option<nat>)
    ensures r.Some? ==> r.value < 16
  {
    if '0' <= c <= '9' then Some((c - '0') as int)
    else if 'a' <= c <= 'f' then Some((c - 'a') as int + 10)
    else if 'A' <= c <= 'F' then Some((c - 'A') as int + 10)
    else None
  }

  function Hex(b: seq<Byte>): (s: string)
    ensures |s| == 2 * |b|
    ensures forall i :: 0 <= i < |s| ==> '0' <= s[i] <= '9' || 'a' <= s[i] <= 'f'
  {
    if b == [] then "" else [HexDigit(b[0] / 16), HexDigit(b[0] % 16)] + Hex(b[1..])
  }

  /** Byte i is spelled by digits 2i and 2i + 1, the high half first, in 0 to 9 and a to f. */
  lemma {:induction false} HexExactly(b: seq<Byte>, i: nat)
    requires i < |b|
    ensures Hex(b)[2 * i] as int == (if b[i] / 16 < 10 then 48 + b[i] / 16 else 87 + b[i] / 16)
    ensures Hex(b)[2 * i + 1] as int == (if b[i] % 16 < 10 then 48 + b[i] % 16 else 87 + b[i] % 16)
  {
    hide Hex;
    HexFirst(b);
    var rest := Hex(b[1..]);
    assert i > 0 ==> Hex(b)[2 * i] == rest[2 * (i - 1)] && Hex(b)[2 * i + 1] == rest[2 * (i - 1) + 1];
    if i > 0 {
      hide HexDigit;
      HexExactly(b[1..], i - 1);
    }
  }

  lemma HexFirst(b: seq<Byte>)
    requires b != []
    ensures Hex(b) == [HexDigit(b[0] / 16), HexDigit(b[0] % 16)] + Hex(b[1..])
  {
  }

  function HexDecode(s: string): Option<seq<Byte>> {
    if s == "" then Some([])
    else if |s| == 1 || HexValue(s[0]) == None || HexValue(s[1]) == None then None
    else
      match HexDecode(s[2..])
      case None => None
      case Some(rest) => Some([HexValue(s[0]).value * 16 + HexValue(s[1]).value] + rest)
  }

  // ---------- KeyToHex ----------

  datatype KeyError = Malformed | WrongLength(got: nat)

  function KeyToHex(b64Key: string): Result<string, KeyError> {
    match Decode(b64Key)
    case None => Err(Malformed)
    case Some(bytes) => if |bytes| != 32 then Err(WrongLength(|bytes|)) else Ok(Hex(bytes))
  }

  // ---------- round trips ----------

  lemma {:induction false} HexRoundTrip(b: seq<Byte>)
    ensures HexDecode(Hex(b)) == Some(b)
  {
    if b != [] {
      HexRoundTrip(b[1..]);
      assert Hex(b)[2..] == Hex(b[1..]);
      assert b == [b[0]] + b[1..];
    }
  }

  lemma {:induction false} DecodeGroupsOfEncode(b: seq<Byte>)
    ensures DecodeGroups(Encode(b)) == Some(b)
  {
    if |b| > 2 {
      hide Quad, Unquad, AllLetters;
      DecodeGroupsOfEncode(b[3..]);
      UnquadOfQuad(b[0], b[1], b[2]);
      assert Encode(b)[4..] == Encode(b[3..]) && Encode(b)[..4] == Quad(b[0], b[1], b[2]);
      assert b == [b[0], b[1], b[2]] + b[3..];
    } else if |b| == 2 {
      DecodeOfTwo(b);
    } else if |b| == 1 {
      DecodeOfOne(b);
    }
  }

  lemma DecodeTwo(s: string)
    requires |s| == 4 && Sextet(s[0]).Some? && Sextet(s[1]).Some? && Sextet(s[2]).Some? && s[3] == '='
    ensures var (p, q, r) := (Sextet(s[0]).value, Sextet(s[1]).value, Sextet(s[2]).value);
            DecodeGroups(s) == Some([p * 4 + q / 16, q % 16 * 16 + r / 4])
  {
    hide Sextet, Unquad;
    PadIsNoLetter();
    assert s[..4] == s && !AllLetters(s);
  }

  lemma DecodeOne(s: string)
    requires |s| == 4 && Sextet(s[0]).Some? && Sextet(s[1]).Some? && s[2] == '=' && s[3] == '='
    ensures DecodeGroups(s) == Some([Sextet(s[0]).value * 4 + Sextet(s[1]).value / 16])
  {
    hide Sextet, Unquad;
    PadIsNoLetter();
    assert s[..4] == s && !AllLetters(s);
  }

  lemma EncodeTwo(b: seq<Byte>)
    requires |b| == 2
    ensures Encode(b) == [Letter(b[0] / 4), Letter(b[0] % 4 * 16 + b[1] / 16), Letter(b[1] % 16 * 4), '=']
  {
    hide Letter;
  }

  lemma EncodeOne(b: seq<Byte>)
    requires |b| == 1
    ensures Encode(b) == [Letter(b[0] / 4), Letter(b[0] % 4 * 16), '=', '=']
  {
    hide Letter;
  }

  lemma DecodeOfTwo(b: seq<Byte>)
    requires |b| == 2
    ensures DecodeGroups(Encode(b)) == Some(b)
  {
    hide Sextet, Letter, Encode, DecodeGroups;
    EncodeTwo(b);
    var s := Encode(b);
    DecodeTwo(s);
    TwoBack(b[0], b[1]);
    assert DecodeGroups(s) == Some([b[0], b[1]]);
    assert b == [b[0], b[1]];
  }

  lemma DecodeOfOne(b: seq<Byte>)
    requires |b| == 1
    ensures DecodeGroups(Encode(b)) == Some(b)
  {
    hide Sextet, Letter, Encode, DecodeGroups;
    EncodeOne(b);
    var s := Encode(b);
    DecodeOne(s);
    assert DecodeGroups(s) == Some([b[0]]);
    assert b == [b[0]];
  }

  lemma TwoBack(a: Byte, b: Byte)
    ensures var (p, q, r) := (a / 4, a % 4 * 16 + b / 16, b % 16 * 4);
            p * 4 + q / 16 == a && q % 16 * 16 + r / 4 == b
  {
  }

  lemma {:induction false} EncodeHasNoNewlines(b: seq<Byte>)
    ensures forall i :: 0 <= i < |Encode(b)| ==> Encode(b)[i] != '\n' && Encode(b)[i] != '\r'
  {
    if |b| > 2 { EncodeHasNoNewlines(b[3..]); }
  }

  predicate OneLine(s: string) {
    forall i :: 0 <= i < |s| ==> s[i] != '\n' && s[i] != '\r'
  }

  lemma {:induction false} StripOneLine(s: string)
    ensures OneLine(s) <==> StripNewlines(s) == s
    ensures |StripNewlines(s)| <= |s|
  {
    if s != "" {
      StripOneLine(s[1..]);
      if s[0] != '\n' && s[0] != '\r' {
        assert StripNewlines(s)[1..] == StripNewlines(s[1..]);
        assert OneLine(s) <==> OneLine(s[1..]) by {
          assert OneLine(s[1..]) ==> forall i :: 0 < i < |s| ==> s[i] == s[1..][i - 1];
          assert OneLine(s) ==> forall i :: 0 <= i < |s| - 1 ==> s[1..][i] == s[i + 1];
        }
      }
    }
  }

  /** Decoding undoes encoding. */
  lemma DecodeOfEncode(b: seq<Byte>)
    ensures Decode(Encode(b)) == Some(b)
  {
    EncodeHasNoNewlines(b);
    StripOneLine(Encode(b));
    DecodeGroupsOfEncode(b);
  }

  /** The bits of the last letter that no byte uses are zero. */
  predicate ZeroTail(s: string) {
    if |s| >= 4 && s[|s| - 1] == '=' then
      if s[|s| - 2] == '=' then Sextet(s[|s| - 3]).Some? && Sextet(s[|s| - 3]).value % 16 == 0
      else Sextet(s[|s| - 2]).Some? && Sextet(s[|s| - 2]).value % 4 == 0
    else true
  }

  /** The text with those bits set to zero. */
  function Canonical(s: string): string {
    if |s| < 4 || s[|s| - 1] != '=' then s
    else if s[|s| - 2] == '=' then ZeroedAt(s, |s| - 3, 16)
    else ZeroedAt(s, |s| - 2, 4)
  }

  function ZeroedAt(s: string, i: nat, unit: nat): string
    requires i < |s| && unit > 0
  {
    if Sextet(s[i]) == None then s else s[i := Cleared(Sextet(s[i]).value, unit)]
  }

  /** The letter whose value is the next multiple of the unit below. */
  function Cleared(n: nat, unit: nat): (c: char)
    requires n < 64 && unit > 0
    ensures Sextet(c) == Some(n / unit * unit)
  {
    assert 0 <= n / unit * unit <= n;
    Letter(n / unit * unit)
  }

  lemma CanonicalExactly(s: string)
    requires DecodeGroups(s).Some?
    ensures Canonical(s) == s <==> ZeroTail(s)
  {
    LastLetter(s);
    hide DecodeGroups, Sextet;
    if |s| >= 4 && s[|s| - 1] == '=' {
      var i := if s[|s| - 2] == '=' then |s| - 3 else |s| - 2;
      LetterOfSextet(s[i]);
      assert Canonical(s) == s <==> Canonical(s)[i] == s[i];
    }
  }

  lemma {:induction false} LastLetter(s: string)
    requires DecodeGroups(s).Some?
    ensures |s| >= 4 && s[|s| - 1] == '=' ==>
              Sextet(s[if s[|s| - 2] == '=' then |s| - 3 else |s| - 2]).Some?
  {
    hide Sextet;
    PadIsNoLetter();
    if |s| > 4 {
      LastLetter(s[4..]);
      assert |s[4..]| >= 4;
    }
  }

  /** Encoding the decoded bytes gives the text with its unused bits cleared. */
  lemma {:induction false} EncodeOfGroups(s: string)
    requires DecodeGroups(s).Some?
    ensures Encode(DecodeGroups(s).value) == Canonical(s)
    decreases |s|
  {
    hide Sextet, Letter, Canonical;
    if s == "" {
      CanonicalEmpty();
    } else {
      if AllLetters(s[..4]) {
        EncodeOfGroups(s[4..]);
        FullGroupFirst(s, DecodeGroups(s[4..]).value);
      } else if Sextet(s[2]).Some? {
        TwoBytes(s);
      } else {
        OneByte(s);
      }
    }
  }

  lemma CanonicalEmpty()
    ensures Canonical("") == ""
  {
  }

  lemma FullGroupFirst(s: string, rest: seq<Byte>)
    requires |s| >= 4 && AllLetters(s[..4])
    requires DecodeGroups(s[4..]) == Some(rest) && Encode(rest) == Canonical(s[4..])
    ensures Encode(DecodeGroups(s).value) == Canonical(s)
  {
    CanonicalAfterGroup(s);
    hide Quad, Unquad, AllLetters, Canonical;
    QuadOfUnquad(s[..4]);
    var b := Unquad(s[..4]) + rest;
    assert DecodeGroups(s) == Some(b) && b[3..] == rest;
  }

  lemma CanonicalAfterGroup(s: string)
    requires |s| >= 4 && AllLetters(s[..4]) && DecodeGroups(s[4..]).Some?
    ensures Canonical(s) == s[..4] + Canonical(s[4..])
  {
    var rest := s[4..];
    PadIsNoLetter();
    assert rest == "" || |rest| >= 4;
    hide Sextet, DecodeGroups, Cleared;
    assert s == s[..4] + rest;
  }

  lemma TwoBytes(s: string)
    requires |s| == 4 && Sextet(s[0]).Some? && Sextet(s[1]).Some? && Sextet(s[2]).Some? && s[3] == '='
    ensures DecodeGroups(s).Some? && Encode(DecodeGroups(s).value) == Canonical(s)
  {
    hide Sextet, Letter, Encode, DecodeGroups, Canonical;
    PadIsNoLetter();
    DecodeTwo(s);
    EncodeTwo(DecodeGroups(s).value);
    TwoForth(Sextet(s[0]).value, Sextet(s[1]).value, Sextet(s[2]).value);
    LetterOfSextet(s[0]);
    LetterOfSextet(s[1]);
    CanonicalShort(s);
  }

  lemma CanonicalShort(s: string)
    requires |s| == 4 && s[3] == '=' && Sextet(s[1]).Some? && (s[2] == '=' || Sextet(s[2]).Some?)
    ensures s[2] != '=' ==> var r := Sextet(s[2]).value;
              r / 4 * 4 < 64 && Canonical(s) == [s[0], s[1], Letter(r / 4 * 4), '=']
    ensures s[2] == '=' ==> var q := Sextet(s[1]).value;
              q / 16 * 16 < 64 && Canonical(s) == [s[0], Letter(q / 16 * 16), '=', '=']
  {
    hide Sextet, Letter;
  }

  lemma TwoForth(p: nat, q: nat, r: nat)
    requires p < 64 && q < 64 && r < 64
    ensures var (a, b) := (p * 4 + q / 16, q % 16 * 16 + r / 4);
            a / 4 == p && a % 4 * 16 + b / 16 == q && b % 16 * 4 == r / 4 * 4
  {
  }

  lemma OneByte(s: string)
    requires |s| == 4 && Sextet(s[0]).Some? && Sextet(s[1]).Some? && s[2] == '=' && s[3] == '='
    ensures DecodeGroups(s).Some? && Encode(DecodeGroups(s).value) == Canonical(s)
  {
    hide Sextet, Letter, Encode, DecodeGroups, Canonical;
    DecodeOne(s);
    EncodeOne(DecodeGroups(s).value);
    var (p, q) := (Sextet(s[0]).value, Sextet(s[1]).value);
    assert (p * 4 + q / 16) / 4 == p && (p * 4 + q / 16) % 4 * 16 == q / 16 * 16;
    LetterOfSextet(s[0]);
    CanonicalShort(s);
  }

  /** Encoding undoes decoding exactly on texts without line breaks whose unused bits are
      zero. */
  lemma EncodeOfDecode(s: string)
    requires Decode(s).Some?
    ensures Encode(Decode(s).value) == s <==> OneLine(s) && ZeroTail(s)
  {
    var t := StripNewlines(s);
    StripOneLine(s);
    EncodeOfGroups(t);
    CanonicalExactly(t);
    if Encode(Decode(s).value) == s {
      EncodeHasNoNewlines(Decode(s).value);
    }
  }

  /** The key of any 32 bytes comes out as the hex of those bytes. */
  lemma KeyOfBytes(key: seq<Byte>)
    requires |key| == 32
    ensures KeyToHex(Encode(key)) == Ok(Hex(key))
  {
    DecodeOfEncode(key);
  }

  /** KeyToHex succeeds exactly on encodings of 32 bytes; the result is 64 lower-case hex
      digits that read back as those bytes. */
  lemma KeyToHexIsSound(s: string)
    ensures KeyToHex(s).Ok? <==> Decode(s).Some? && |Decode(s).value| == 32
    ensures KeyToHex(s) == Err(Malformed) <==> Decode(s) == None
    ensures forall n :: KeyToHex(s) == Err(WrongLength(n)) <==> Decode(s).Some? && n == |Decode(s).value| != 32
    ensures KeyToHex(s).Ok? ==>
              && |KeyToHex(s).value| == 64
              && (forall i :: 0 <= i < 64 ==> '0' <= KeyToHex(s).value[i] <= '9' || 'a' <= KeyToHex(s).value[i] <= 'f')
              && HexDecode(KeyToHex(s).value) == Decode(s)
  {
    if KeyToHex(s).Ok? { HexRoundTrip(Decode(s).value); }
  }

  /** Decoding the hex and encoding again gives the configured text back exactly when that
      text is canonical: 44 characters, the last letter's two unused bits zero. */
  lemma KeyRoundTripExactly(s: string)
    requires KeyToHex(s).Ok?
    ensures HexDecode(KeyToHex(s).value).Some?
    ensures Encode(HexDecode(KeyToHex(s).value).value) == s <==>
            |s| == 44 && Sextet(s[42]).Some? && Sextet(s[42]).value % 4 == 0
  {
    hide Encode, DecodeGroups, Hex, HexDecode;
    KeyToHexIsSound(s);
    EncodeOfDecode(s);
    GroupsLength(StripNewlines(s));
    StripOneLine(s);
    if |s| == 44 { StripKeepsLength(s); }
  }

  lemma FullLength(s: string)
    requires |s| >= 4 && AllLetters(s[..4]) && DecodeGroups(s).Some?
    ensures DecodeGroups(s[4..]).Some? && |DecodeGroups(s).value| == 3 + |DecodeGroups(s[4..]).value|
  {
    hide Unquad, AllLetters;
  }

  lemma ShortLength(s: string)
    requires s != "" && (|s| >= 4 ==> !AllLetters(s[..4])) && DecodeGroups(s).Some?
    ensures |s| == 4 && s[3] == '=' && 1 <= |DecodeGroups(s).value| <= 2
    ensures |DecodeGroups(s).value| == 2 ==> Sextet(s[2]).Some? && s[2] != '='
  {
    hide Sextet, AllLetters;
    PadIsNoLetter();
  }

  lemma OneGroupMore(n: nat)
    ensures (n + 3 + 2) / 3 * 4 == (n + 2) / 3 * 4 + 4 && (n + 3) % 3 == n % 3
  {
    var k, r := (n + 2) / 3, (n + 2) % 3;
    assert n + 3 + 2 == 3 * (k + 1) + r;
  }

  lemma {:induction false} GroupsLength(s: string)
    requires DecodeGroups(s).Some?
    ensures var n := |DecodeGroups(s).value|;
            && |s| == (n + 2) / 3 * 4
            && (n % 3 == 2 ==> s[|s| - 1] == '=' && Sextet(s[|s| - 2]).Some? && s[|s| - 2] != '=')
  {
    if s != "" {
      hide Sextet, AllLetters, DecodeGroups;
      if |s| >= 4 && AllLetters(s[..4]) {
        FullLength(s);
        GroupsLength(s[4..]);
        OneGroupMore(|DecodeGroups(s[4..]).value|);
      } else {
        ShortLength(s);
      }
    }
  }

  lemma {:induction false} StripKeepsLength(s: string)
    requires |StripNewlines(s)| == |s|
    ensures OneLine(s)
  {
    if s != "" {
      StripOneLine(s[1..]);
      StripKeepsLength(s[1..]);
      forall i | 0 <= i < |s| ensures s[i] != '\n' && s[i] != '\r' {
        if i > 0 { assert s[1..][i - 1] == s[i]; }
      }
    }
  }

  /** Two texts decode to the same bytes exactly when, without line breaks and with their
      unused bits cleared, they are the same text. */
  lemma SameBytesExactly(s: string, s': string)
    requires Decode(s).Some? && Decode(s').Some?
    ensures Decode(s) == Decode(s') <==> Canonical(StripNewlines(s)) == Canonical(StripNewlines(s'))
  {
    hide DecodeGroups, Canonical, StripNewlines;
    EncodeOfGroups(StripNewlines(s));
    EncodeOfGroups(StripNewlines(s'));
    if Canonical(StripNewlines(s)) == Canonical(StripNewlines(s')) {
      DecodeOfEncode(Decode(s).value);
      DecodeOfEncode(Decode(s').value);
    }
  }

  /** Two configured texts give the same key exactly when, without their line breaks, the
      first 42 characters agree and so do the four bits of the last letter that count. */
  lemma SameKeyExactly(s: string, s': string)
    requires KeyToHex(s).Ok? && KeyToHex(s').Ok?
    ensures var t, t' := StripNewlines(s), StripNewlines(s');
            && |t| == |t'| == 44 && Sextet(t[42]).Some? && Sextet(t'[42]).Some?
            && (KeyToHex(s) == KeyToHex(s') <==>
                t[..42] == t'[..42] && Sextet(t[42]).value / 4 == Sextet(t'[42]).value / 4)
  {
    hide DecodeGroups, Canonical, StripNewlines, HexDecode, Hex;
    KeyToHexIsSound(s);
    KeyToHexIsSound(s');
    GroupsLength(StripNewlines(s));
    GroupsLength(StripNewlines(s'));
    SameBytesExactly(s, s');
    SameCanonicalKey(StripNewlines(s), StripNewlines(s'));
  }

  lemma SameCanonicalKey(t: string, t': string)
    requires |t| == |t'| == 44 && t[43] == t'[43] == '=' && t[42] != '=' && t'[42] != '='
    requires Sextet(t[42]).Some? && Sextet(t'[42]).Some?
    ensures Canonical(t) == Canonical(t') <==>
            t[..42] == t'[..42] && Sextet(t[42]).value / 4 == Sextet(t'[42]).value / 4
  {
    hide Sextet, Letter;
    var v, v' := Sextet(t[42]).value, Sextet(t'[42]).value;
    assert 0 <= v / 4 * 4 < 64 && 0 <= v' / 4 * 4 < 64;
    var c, c' := Letter(v / 4 * 4), Letter(v' / 4 * 4);
    assert Canonical(t) == t[..42] + [c, '='] && Canonical(t') == t'[..42] + [c', '='];
    assert (t[..42] + [c, '='])[..42] == t[..42] && (t'[..42] + [c', '='])[..42] == t'[..42];
    assert (t[..42] + [c, '='])[42] == c && (t'[..42] + [c', '='])[42] == c';
  }

  /** So different canonical texts give different results. */
  lemma CanonicalKeysAreDistinct(s: string, s': string)
    requires KeyToHex(s).Ok? && KeyToHex(s) == KeyToHex(s')
    requires OneLine(s) && ZeroTail(s) && OneLine(s') && ZeroTail(s')
    ensures s == s'
  {
    KeyToHexIsSound(s);
    KeyToHexIsSound(s');
    StripOneLine(s);
    StripOneLine(s');
    CanonicalExactly(s);
    CanonicalExactly(s');
    SameBytesExactly(s, s');
  }

  /** And a trailing line break changes nothing. */
  lemma LineBreakIsIgnored(s: string)
    ensures KeyToHex(s + "\n") == KeyToHex(s)
  {
    StripAppend(s);
  }

  /** Nor do the two unused bits of the last letter. */
  lemma UnusedBitsAreIgnored(s: string, c: char)
    requires KeyToHex(s).Ok? && |s| == 44 && Sextet(s[42]).Some?
    requires Sextet(c).Some? && Sextet(c).value / 4 == Sextet(s[42]).value / 4
    ensures KeyToHex(s[42 := c]) == KeyToHex(s)
  {
    hide DecodeGroups, Hex, Sextet;
    LineBreakIsNoLetter();
    GroupsLength(StripNewlines(s));
    StripOneLine(s);
    StripKeepsLength(s);
    StripOneLine(s[42 := c]);
    SameLastLetter(s, c);
  }

  lemma LineBreakIsNoLetter()
    ensures Sextet('\n') == None && Sextet('\r') == None
  {
  }

  lemma {:induction false} SameLastLetter(s: string, c: char)
    requires DecodeGroups(s).Some? && |s| >= 4 && s[|s| - 1] == '=' && Sextet(s[|s| - 2]).Some?
    requires Sextet(c).Some? && Sextet(c).value / 4 == Sextet(s[|s| - 2]).value / 4
    ensures DecodeGroups(s[|s| - 2 := c]) == DecodeGroups(s)
  {
    var s' := s[|s| - 2 := c];
    PadIsNoLetter();
    hide Sextet, Unquad;
    if AllLetters(s[..4]) {
      SameLastLetter(s[4..], c);
      assert s'[..4] == s[..4] && s'[4..] == s[4..][|s| - 6 := c];
    } else {
      DecodeTwo(s);
      DecodeTwo(s');
    }
  }

  lemma {:induction false} StripAppend(s: string)
    ensures StripNewlines(s + "\n") == StripNewlines(s)
  {
    if s != "" {
      assert (s + "\n")[1..] == s[1..] + "\n";
      StripAppend(s[1..]);
    } else {
      assert (s + "\n")[1..] == "";
    }
  }
}
