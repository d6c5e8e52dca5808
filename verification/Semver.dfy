/** Client versions: parsing a major.minor.patch triple, comparing, and the verdict on a
    client's version. */
module Semver {
  import opened Wrappers
  import opened Config
  import opened Text

  /** The largest int of a 64-bit platform. */
  const MAX_INT: int := 0x7fff_ffff_ffff_ffff

  predicate AllDigits(s: string) {
    s != "" && forall k :: 0 <= k < |s| ==> IsDigit(s[k])
  }

  /** strconv.Atoi: an optional sign, then digits, within the range of int. */
  function Atoi(s: string): Option<int> {
    var signed := s != "" && (s[0] == '-' || s[0] == '+');
    var digits := if signed then s[1..] else s;
    if !AllDigits(digits) then None
    else
      var n: int := if signed && s[0] == '-' then 0 - Value(digits) else Value(digits);
      if -MAX_INT - 1 <= n <= MAX_INT then Some(n) else None
  }

  /** The first occurrence of a byte, or the length. */
  function IndexByte(s: string, c: char): (i: nat)
    ensures i <= |s| && (i < |s| ==> s[i] == c) && forall k :: 0 <= k < i ==> s[k] != c
  {
    if s == "" || s[0] == c then 0 else 1 + IndexByte(s[1..], c)
  }

  /** strings.SplitN(s, ".", n). */
  function SplitN(s: string, n: nat): (parts: seq<string>)
    requires n >= 1
    ensures 1 <= |parts| <= n
    decreases n
  {
    var i := IndexByte(s, '.');
    if n == 1 || i == |s| then [s] else [s[..i]] + SplitN(s[i + 1..], n - 1)
  }

  function TrimV(v: string): string {
    if v != "" && v[0] == 'v' then v[1..] else v
  }

  function Parts(v: string): (parts: seq<string>)
    ensures 1 <= |parts| <= 3
  {
    SplitN(TrimV(v), 3)
  }

  /** One component: its text up to a '-', as a number. */
  function Component(part: string): Option<int> {
    Atoi(part[..IndexByte(part, '-')])
  }

  predicate Parseable(v: string) {
    forall i :: 0 <= i < |Parts(v)| ==> Component(Parts(v)[i]).Some?
  }

  /** The triple of a parseable version, missing components being 0. */
  function Triple(v: string): (t: seq<int>)
    requires Parseable(v)
    ensures |t| == 3
  {
    seq(3, i requires 0 <= i < 3 => if i < |Parts(v)| then Component(Parts(v)[i]).value else 0)
  }

  method ParseSemver(v: string) returns (r: Result<seq<int>, string>)
    ensures r.Ok? <==> Parseable(v)
    ensures r.Ok? ==> r.value == Triple(v)
    ensures r.Err? ==> r.error in Parts(v) && Component(r.error) == None
  {
    var trimmed := TrimV(v);
    var parts := SplitN(trimmed, 3);
    var result := [0, 0, 0];
    var i := 0;
    while i < |parts| && i < 3
      invariant 0 <= i <= |parts| && |result| == 3
      invariant forall k :: 0 <= k < i ==> Component(parts[k]) == Some(result[k])
      invariant forall k :: i <= k < 3 ==> result[k] == 0
    {
      var clean := parts[i];
      var idx := IndexByte(clean, '-');
      if idx < |clean| { clean := clean[..idx]; }
      var n := Atoi(clean);
      assert Parts(v)[i] == parts[i] && clean == parts[i][..idx];
      if n == None { return Err(parts[i]); }
      result := result[i := n.value];
      i := i + 1;
    }
    TripleFound(v, result);
    return Ok(result);
  }

  lemma TripleFound(v: string, result: seq<int>)
    requires |result| == 3
    requires forall k :: 0 <= k < |Parts(v)| ==> Component(Parts(v)[k]) == Some(result[k])
    requires forall k :: |Parts(v)| <= k < 3 ==> result[k] == 0
    ensures Parseable(v) && Triple(v) == result
  {
  }

  /** A component is a number exactly when, up to a '-', it is digits after an optional
      '+', and fits; so it is never negative. */
  lemma ComponentIsNumeral(part: string)
    ensures var text := part[..IndexByte(part, '-')];
            var digits := if text != "" && text[0] == '+' then text[1..] else text;
            && (Component(part).Some? <==>
                  && digits != "" && (forall k :: 0 <= k < |digits| ==> '0' <= digits[k] <= '9')
                  && Value(digits) <= 9_223_372_036_854_775_807)
            && (Component(part).Some? ==> Component(part).value == Value(digits) >= 0)
  {
  }

  lemma TripleIsNatural(v: string, i: nat)
    requires Parseable(v) && i < 3
    ensures 0 <= Triple(v)[i] <= MAX_INT
    ensures i >= |Parts(v)| ==> Triple(v)[i] == 0
  {
  }

  // ---------- printing and parsing ----------

  /** The parts joined by dots are the text, none but a third has a dot in it, and there
      are as many as the dots ask for. */
  lemma {:induction false} SplitIsExact(s: string, n: nat)
    requires n >= 1
    ensures var parts := SplitN(s, n);
            && Joined(parts) == s
            && (forall i :: 0 <= i < |parts| - 1 ==> '.' !in parts[i])
            && (|parts| < n ==> '.' !in parts[|parts| - 1])
    decreases n
  {
    hide IndexByte, SplitN, Joined;
    SplitStep(s, n);
    var i := IndexByte(s, '.');
    if n > 1 && i < |s| {
      SplitIsExact(s[i + 1..], n - 1);
      JoinFirst(s[..i], SplitN(s[i + 1..], n - 1));
      assert s == s[..i] + "." + s[i + 1..];
    } else {
      JoinOne(s);
    }
  }

  lemma SplitStep(s: string, n: nat)
    requires n >= 1
    ensures var i := IndexByte(s, '.');
            SplitN(s, n) == if n == 1 || i == |s| then [s] else [s[..i]] + SplitN(s[i + 1..], n - 1)
  {
    hide IndexByte;
  }

  lemma JoinOne(s: string)
    ensures Joined([s]) == s
  {
  }

  /** A version is cut at its first two dots, after one leading "v" if it has one. */
  lemma PartsExactly(v: string)
    ensures var parts, text := Parts(v), if v != "" && v[0] == 'v' then v[1..] else v;
            && 1 <= |parts| <= 3
            && (|parts| == 1 ==> parts[0] == text && '.' !in text)
            && (|parts| == 2 ==> parts[0] + "." + parts[1] == text && '.' !in parts[0] && '.' !in parts[1])
            && (|parts| == 3 ==>
                  parts[0] + "." + (parts[1] + "." + parts[2]) == text && '.' !in parts[0] && '.' !in parts[1])
  {
    hide SplitN;
    var parts := Parts(v);
    SplitIsExact(TrimV(v), 3);
    if |parts| > 1 {
      JoinFirst(parts[0], parts[1..]);
      assert parts == [parts[0]] + parts[1..];
      if |parts| == 3 {
        JoinFirst(parts[1], parts[2..]);
        assert parts[1..] == [parts[1]] + parts[2..];
      }
    }
  }

  lemma JoinFirst(first: string, parts: seq<string>)
    requires parts != []
    ensures Joined([first] + parts) == first + "." + Joined(parts)
  {
  }

  function Joined(parts: seq<string>): string {
    if parts == [] then "" else if |parts| == 1 then parts[0] else parts[0] + "." + Joined(parts[1..])
  }

  lemma IndexAt(s: string, c: char, i: nat)
    requires i <= |s| && (i < |s| ==> s[i] == c) && forall k :: 0 <= k < i ==> s[k] != c
    ensures IndexByte(s, c) == i
  {
  }

  lemma NumeralComponent(n: nat, suffix: string)
    requires n <= MAX_INT && (suffix == "" || suffix[0] == '-')
    ensures Component(Decimal(n) + suffix) == Some(n)
  {
    var part := Decimal(n) + suffix;
    assert forall k :: 0 <= k < |Decimal(n)| ==> part[k] == Decimal(n)[k] && part[k] != '-';
    IndexAt(part, '-', |Decimal(n)|);
    assert part[..|Decimal(n)|] == Decimal(n);
    DecimalValue(n);
  }

  lemma SplitAfter(n: nat, rest: string, k: nat)
    requires k >= 2
    ensures SplitN(Decimal(n) + "." + rest, k) == [Decimal(n)] + SplitN(rest, k - 1)
  {
    var s := Decimal(n) + "." + rest;
    assert forall j :: 0 <= j < |Decimal(n)| ==> s[j] == Decimal(n)[j] && s[j] != '.';
    IndexAt(s, '.', |Decimal(n)|);
    assert s[..|Decimal(n)|] == Decimal(n) && s[|Decimal(n)| + 1..] == rest;
  }

  function Printed(a: nat, b: nat, patch: string): string {
    Decimal(a) + "." + (Decimal(b) + "." + patch)
  }

  lemma PrintedParts(a: nat, b: nat, patch: string, leadingV: bool)
    ensures Parts((if leadingV then "v" else "") + Printed(a, b, patch)) == [Decimal(a), Decimal(b), patch]
  {
    hide Decimal, IndexByte;
    var core := Printed(a, b, patch);
    var v := (if leadingV then "v" else "") + core;
    assert core[0] == Decimal(a)[0] && IsDigit(core[0]);
    assert leadingV ==> v[1..] == core;
    assert TrimV(v) == core;
    SplitAfter(a, Decimal(b) + "." + patch, 3);
    SplitAfter(b, patch, 2);
  }

  /** Parsing undoes printing: with or without the leading "v", and with any "-suffix" on
      the patch, dots included. */
  lemma ParsePrinted(a: nat, b: nat, c: nat, leadingV: bool, suffix: string)
    requires a <= MAX_INT && b <= MAX_INT && c <= MAX_INT && (suffix == "" || suffix[0] == '-')
    ensures var v := (if leadingV then "v" else "") + Printed(a, b, Decimal(c) + suffix);
            Parseable(v) && Triple(v) == [a, b, c]
  {
    hide Decimal, Component, Parts, Printed;
    PrintedParts(a, b, Decimal(c) + suffix, leadingV);
    assert Decimal(a) + "" == Decimal(a) && Decimal(b) + "" == Decimal(b);
    NumeralComponent(a, "");
    NumeralComponent(b, "");
    NumeralComponent(c, suffix);
  }

  // ---------- comparing ----------

  function CompareFrom(a: seq<int>, b: seq<int>, i: nat): int
    requires |a| == |b| == 3 && i <= 3
    decreases 3 - i
  {
    if i == 3 then 0
    else if a[i] < b[i] then -1
    else if a[i] > b[i] then 1
    else CompareFrom(a, b, i + 1)
  }

  function CompareSemver(a: string, b: string): Option<int> {
    if Parseable(a) && Parseable(b) then Some(CompareFrom(Triple(a), Triple(b), 0)) else None
  }

  predicate Smaller(a: seq<int>, b: seq<int>)
    requires |a| == |b| == 3
  {
    a[0] < b[0] || (a[0] == b[0] && (a[1] < b[1] || (a[1] == b[1] && a[2] < b[2])))
  }

  lemma CompareLaws(a: seq<int>, b: seq<int>, c: seq<int>, i: nat)
    requires |a| == |b| == |c| == 3 && i <= 3
    ensures CompareFrom(b, a, i) == -CompareFrom(a, b, i)
    ensures CompareFrom(a, b, i) == 0 <==> a[i..] == b[i..]
    ensures CompareFrom(a, b, i) <= 0 && CompareFrom(b, c, i) <= 0 ==> CompareFrom(a, c, i) <= 0
    ensures CompareFrom(a, b, i) <= 0 && CompareFrom(b, c, i) < 0 ==> CompareFrom(a, c, i) < 0
  {
  }

  /** Comparison is a total preorder on parseable versions: signs flip with the order, it
      is transitive, strictly too, and it is zero exactly on equal triples. */
  lemma CompareIsPreorder(a: string, b: string, c: string)
    requires Parseable(a) && Parseable(b) && Parseable(c)
    ensures CompareSemver(b, a).value == -CompareSemver(a, b).value
    ensures CompareSemver(a, b).value == 0 <==> Triple(a) == Triple(b)
    ensures CompareSemver(a, b).value < 0 <==> Smaller(Triple(a), Triple(b))
    ensures CompareSemver(a, b).value <= 0 && CompareSemver(b, c).value <= 0 ==> CompareSemver(a, c).value <= 0
    ensures CompareSemver(a, b).value <= 0 && CompareSemver(b, c).value < 0 ==> CompareSemver(a, c).value < 0
  {
    CompareLaws(Triple(a), Triple(b), Triple(c), 0);
    assert Triple(a)[0..] == Triple(a) && Triple(b)[0..] == Triple(b);
  }

  // ---------- the verdict ----------

  datatype Verdict = UpToDate | UpdateAvailable | BelowMinimum | Unparseable

  function CheckVersion(client: string, required: VersionConfig): Verdict {
    if client == "dev" || required.minimum == "" then UpToDate
    else
      var cmp := CompareSemver(client, required.minimum);
      if cmp == None then Unparseable
      else if cmp.value < 0 then BelowMinimum
      else if required.latest != "" then
        var latest := CompareSemver(client, required.latest);
        if latest == None then UpToDate else if latest.value < 0 then UpdateAvailable else UpToDate
      else UpToDate
  }

  function Severity(v: Verdict): nat {
    match v
    case UpToDate => 0
    case UpdateAvailable => 1
    case BelowMinimum => 2
    case Unparseable => 3
  }

  /** A newer client never gets a more severe verdict. */
  lemma NewerIsNeverWorse(a: string, b: string, required: VersionConfig)
    requires a != "dev" && b != "dev" && Parseable(a) && Parseable(b)
    requires CompareSemver(a, b).value <= 0
    ensures Severity(CheckVersion(b, required)) <= Severity(CheckVersion(a, required))
  {
    hide Triple, CompareFrom, Parseable;
    if Parseable(required.minimum) {
      CompareIsPreorder(a, b, required.minimum);
    }
    if Parseable(required.latest) {
      CompareIsPreorder(a, b, required.latest);
    }
  }

  /** When a client is turned away: it is not a development build, a minimum is set, and
      either one of the two versions cannot be read or the client's triple is smaller; and
      which of these it is told. */
  lemma TurnedAwayExactly(client: string, required: VersionConfig)
    ensures CheckVersion(client, required) == Unparseable <==>
            client != "dev" && required.minimum != "" && !(Parseable(client) && Parseable(required.minimum))
    ensures CheckVersion(client, required) == BelowMinimum <==>
            && client != "dev" && required.minimum != "" && Parseable(client) && Parseable(required.minimum)
            && Smaller(Triple(client), Triple(required.minimum))
    ensures Severity(CheckVersion(client, required)) >= 2 <==>
            CheckVersion(client, required) in {Unparseable, BelowMinimum}
  {
  }

  /** When an update is offered: the client may stay, and its triple is smaller than the
      latest one; a latest version that cannot be read is ignored, and so is any latest
      version when no minimum is set. */
  lemma UpdateOfferedExactly(client: string, required: VersionConfig)
    ensures CheckVersion(client, required) == UpdateAvailable <==>
            && client != "dev" && required.minimum != "" && required.latest != ""
            && Parseable(client) && Parseable(required.minimum) && Parseable(required.latest)
            && !Smaller(Triple(client), Triple(required.minimum)) && Smaller(Triple(client), Triple(required.latest))
  {
  }

  /** Of what may follow the patch number, only a "-suffix" is understood. Build metadata
      (section 10 of Semantic Versioning 2.0.0) parses after such a suffix, as in
      "1.2.3-rc.1+5", and is rejected directly after the number, as in "1.2.3+5". */
  lemma TailParsesExactly(a: nat, b: nat, c: nat, leadingV: bool, tail: string)
    requires a <= MAX_INT && b <= MAX_INT && c <= MAX_INT && (tail == "" || !IsDigit(tail[0]))
    ensures Parseable((if leadingV then "v" else "") + Printed(a, b, Decimal(c) + tail)) <==>
            tail == "" || tail[0] == '-'
  {
    hide Decimal, Component, Parts, Printed;
    if tail == "" || tail[0] == '-' {
      ParsePrinted(a, b, c, leadingV, tail);
    } else {
      var patch := Decimal(c) + tail;
      PrintedParts(a, b, patch, leadingV);
      NoNumeral(Decimal(c), tail);
      assert Parts((if leadingV then "v" else "") + Printed(a, b, patch))[2] == patch;
    }
  }

  lemma NoNumeral(number: string, tail: string)
    requires AllDigits(number) && tail != "" && !IsDigit(tail[0]) && tail[0] != '-'
    ensures Component(number + tail) == None
  {
    var part, n := number + tail, |number|;
    var i := IndexByte(part, '-');
    assert forall k :: 0 <= k < n ==> part[k] == number[k];
    assert part[n] == tail[0];
    assert i > n;
    assert part[..i][0] == number[0] && IsDigit(number[0]) && part[..i][n] == tail[0];
  }
}
