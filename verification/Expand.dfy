/** ${NAME} expansion: every leftmost, non-overlapping match of \$\{([^}]+)\} is replaced
    by the value of the variable it names, in one pass. */
module Expand {

  /** os.Getenv: total, and "" for a variable that is not set. */
  type Env = string -> string

  // ---------- what the pattern matches ----------

  predicate IsMatch(s: string, i: nat, j: nat) {
    && i + 4 <= j <= |s|
    && s[i] == '$' && s[i + 1] == '{' && s[j - 1] == '}'
    && forall k :: i + 2 <= k < j - 1 ==> s[k] != '}'
  }

  ghost predicate NoMatchIn(s: string, from: nat, to: nat) {
    forall i, j :: from <= i < to ==> !IsMatch(s, i, j)
  }

  function NameOf(s: string, i: nat, j: nat): string
    requires IsMatch(s, i, j)
  {
    s[i + 2..j - 1]
  }

  /** A match is "${", a name that is not empty and has no '}', and '}'. */
  lemma MatchExactly(s: string, i: nat, j: nat)
    ensures IsMatch(s, i, j) <==>
            i + 4 <= j <= |s| && s[i..j] == "${" + s[i + 2..j - 1] + "}" && '}' !in s[i + 2..j - 1]
    ensures IsMatch(s, i, j) ==> NameOf(s, i, j) == s[i + 2..j - 1] != ""
  {
    if i + 4 <= j <= |s| {
      var t, n := s[i..j], s[i + 2..j - 1];
      assert t[0] == s[i] && t[1] == s[i + 1] && t[j - i - 1] == s[j - 1];
      assert forall k :: i + 2 <= k < j - 1 ==> n[k - i - 2] == s[k];
      if t == "${" + n + "}" {
        assert t[0] == '$' && t[1] == '{' && t[j - i - 1] == '}';
        forall k | i + 2 <= k < j - 1 && '}' !in n ensures s[k] != '}' {
          assert n[k - i - 2] in n;
        }
      }
    }
  }

  /** The leftmost, non-overlapping matches from a position on. */
  ghost predicate Leftmost(s: string, from: nat, spans: seq<(nat, nat)>)
    decreases |spans|
  {
    if spans == [] then NoMatchIn(s, from, |s|)
    else
      var (i, j) := spans[0];
      from <= i && IsMatch(s, i, j) && NoMatchIn(s, from, i) && Leftmost(s, j, spans[1..])
  }

  /** The text between the spans, with the value of each span's variable in its place. */
  ghost function Substituted(s: string, from: nat, spans: seq<(nat, nat)>, env: Env): string
    requires from <= |s| && Leftmost(s, from, spans)
    decreases |spans|
  {
    if spans == [] then s[from..]
    else
      var (i, j) := spans[0];
      s[from..i] + env(NameOf(s, i, j)) + Substituted(s, j, spans[1..], env)
  }

  // ---------- the scanner ----------

  /** The first '}' from a position on, or the end. */
  function CloseAt(s: string, i: nat): (c: nat)
    requires i <= |s|
    ensures i <= c <= |s| && (c < |s| ==> s[c] == '}') && forall k :: i <= k < c ==> s[k] != '}'
    decreases |s| - i
  {
    if i == |s| || s[i] == '}' then i else CloseAt(s, i + 1)
  }

  /** Where the match that starts at i ends, or 0 when none starts there. */
  function MatchEnd(s: string, i: nat): (j: nat)
    ensures j != 0 ==> IsMatch(s, i, j)
    ensures forall k :: IsMatch(s, i, k) ==> k == j
  {
    if i + 2 <= |s| && s[i] == '$' && s[i + 1] == '{' then
      var c := CloseAt(s, i + 2);
      if i + 2 < c < |s| then c + 1 else 0
    else 0
  }

  function Scan(s: string, i: nat, env: Env): string
    requires i <= |s|
    decreases |s| - i
  {
    if i == |s| then ""
    else
      var j := MatchEnd(s, i);
      if j != 0 then env(NameOf(s, i, j)) + Scan(s, j, env) else [s[i]] + Scan(s, i + 1, env)
  }

  /** The names looked up from a position on. */
  function Names(s: string, i: nat): set<string>
    requires i <= |s|
    decreases |s| - i
  {
    if i == |s| then {}
    else
      var j := MatchEnd(s, i);
      if j != 0 then {NameOf(s, i, j)} + Names(s, j) else Names(s, i + 1)
  }

  predicate HasOpening(s: string) {
    exists i :: 0 <= i < |s| - 1 && s[i] == '$' && s[i + 1] == '{'
  }

  function ExpandString(s: string, env: Env): string {
    if !HasOpening(s) then s else Scan(s, 0, env)
  }

  // ---------- the scanner is the replacement ----------

  lemma ScanStep(s: string, i: nat, env: Env)
    requires i < |s|
    ensures var j := MatchEnd(s, i);
            if j != 0 then
              && Scan(s, i, env) == env(NameOf(s, i, j)) + Scan(s, j, env)
              && Names(s, i) == {NameOf(s, i, j)} + Names(s, j)
            else Scan(s, i, env) == [s[i]] + Scan(s, i + 1, env) && Names(s, i) == Names(s, i + 1)
  {
  }

  lemma ScanEnd(s: string, env: Env)
    ensures Scan(s, |s|, env) == "" && Names(s, |s|) == {}
  {
  }

  lemma {:induction false} LiteralRun(s: string, from: nat, to: nat, env: Env)
    requires from <= to <= |s| && NoMatchIn(s, from, to)
    ensures Scan(s, from, env) == s[from..to] + Scan(s, to, env)
    decreases |s| - from
  {
    hide Scan, Names;
    if from < to {
      LiteralRun(s, from + 1, to, env);
      assert !IsMatch(s, from, MatchEnd(s, from));
      ScanStep(s, from, env);
      var tail := Scan(s, to, env);
      assert s[from..to] == [s[from]] + s[from + 1..to];
      assert s[from..to] + tail == [s[from]] + (s[from + 1..to] + tail);
    }
  }

  /** The scanner replaces each leftmost match exactly once, keeps all other text in
      order, and never looks at an inserted value again. */
  lemma {:induction false} ScanIsReplacement(s: string, from: nat, spans: seq<(nat, nat)>, env: Env)
    requires from <= |s| && Leftmost(s, from, spans)
    ensures Scan(s, from, env) == Substituted(s, from, spans, env)
    decreases |spans|
  {
    hide Scan, Names;
    ScanEnd(s, env);
    if spans == [] {
      LiteralRun(s, from, |s|, env);
      assert s[from..|s|] + Scan(s, |s|, env) == s[from..];
    } else {
      var (i, j) := spans[0];
      LiteralRun(s, from, i, env);
      ScanIsReplacement(s, j, spans[1..], env);
      assert MatchEnd(s, i) == j;
      ScanStep(s, i, env);
      var value := env(NameOf(s, i, j));
      assert s[from..i] + (value + Scan(s, j, env)) == s[from..i] + value + Scan(s, j, env);
    }
  }

  /** Every string has leftmost matches from every position. */
  lemma {:induction false} LeftmostExists(s: string, from: nat) returns (spans: seq<(nat, nat)>)
    requires from <= |s|
    ensures Leftmost(s, from, spans)
    decreases |s| - from
  {
    if from == |s| {
      return [];
    }
    var j := MatchEnd(s, from);
    if j != 0 {
      var rest := LeftmostExists(s, j);
      spans := [(from, j)] + rest;
      assert spans[1..] == rest;
    } else {
      spans := LeftmostExists(s, from + 1);
    }
  }

  lemma NoSpanNoMatch(s: string, from: nat, spans: seq<(nat, nat)>)
    requires Leftmost(s, from, spans)
    ensures spans == [] <==> NoMatchIn(s, from, |s|)
  {
  }

  lemma {:induction false} LeftmostUnique(s: string, from: nat, spans: seq<(nat, nat)>, spans': seq<(nat, nat)>)
    requires Leftmost(s, from, spans) && Leftmost(s, from, spans')
    ensures spans == spans'
    decreases |spans|
  {
    NoSpanNoMatch(s, from, spans);
    NoSpanNoMatch(s, from, spans');
    if spans != [] {
      var (i, j) := spans[0];
      var (i', j') := spans'[0];
      assert MatchEnd(s, i) == j && MatchEnd(s, i') == j';
      LeftmostUnique(s, j, spans[1..], spans'[1..]);
      assert spans == [spans[0]] + spans[1..] && spans' == [spans'[0]] + spans'[1..];
    }
  }

  /** ExpandString is that replacement on every string, the fast path included. */
  lemma ExpandIsReplacement(s: string, spans: seq<(nat, nat)>, env: Env)
    requires Leftmost(s, 0, spans)
    ensures ExpandString(s, env) == Substituted(s, 0, spans, env)
  {
    if HasOpening(s) {
      ScanIsReplacement(s, 0, spans, env);
    } else {
      StableIsFixed(s, env);
      ScanIsReplacement(s, 0, spans, env);
    }
  }

  /** Nothing left to expand. */
  ghost predicate Stable(s: string) {
    forall i, j :: !IsMatch(s, i, j)
  }

  lemma StableIsFixed(s: string, env: Env)
    requires Stable(s) || !HasOpening(s)
    ensures Scan(s, 0, env) == s && ExpandString(s, env) == s
  {
    LiteralRun(s, 0, |s|, env);
    assert s[0..|s|] + Scan(s, |s|, env) == s;
  }

  // ---------- when one pass is enough ----------

  /** A value that cannot make a new match: it is not empty, cannot complete a "${" begun
      to its left or begin one completed to its right, and holds "${" only as "${}". */
  predicate Inert(v: string) {
    && v != "" && v[|v| - 1] != '$'
    && (v[0] == '{' ==> |v| >= 2 && v[1] == '}')
    && forall i :: 0 <= i < |v| - 1 && v[i] == '$' && v[i + 1] == '{' ==> i + 2 < |v| && v[i + 2] == '}'
  }

  /** The plain condition: not empty, no '$', no leading '{'. */
  lemma PlainIsInert(v: string)
    requires v != "" && '$' !in v && v[0] != '{'
    ensures Inert(v)
  {
  }

  lemma {:induction false} NoCloseNoMatch(s: string, i: nat, env: Env)
    requires i <= |s| && forall k :: i <= k < |s| ==> s[k] != '}'
    ensures Scan(s, i, env) == s[i..]
  {
    LiteralRun(s, i, |s|, env);
    assert s[i..|s|] + Scan(s, |s|, env) == s[i..];
  }

  /** Values that are all inert leave nothing to expand. */
  lemma {:induction false} InertScanIsStable(s: string, i: nat, env: Env)
    requires i <= |s| && forall n :: n in Names(s, i) ==> Inert(env(n))
    ensures Stable(Scan(s, i, env))
    decreases |s| - i
  {
    if i < |s| {
      var j := MatchEnd(s, i);
      if j != 0 {
        InertScanIsStable(s, j, env);
        StableAfterInert(env(NameOf(s, i, j)), Scan(s, j, env));
      } else {
        InertScanIsStable(s, i + 1, env);
        if s[i] == '$' { NoMatchThroughLiteral(s, i, env); }
        StableAfterChar(s[i], Scan(s, i + 1, env));
      }
    }
  }

  lemma MatchShift(p: string, r: string, i: nat, j: nat)
    ensures IsMatch(p + r, |p| + i, |p| + j) <==> IsMatch(r, i, j)
  {
    var t := p + r;
    assert forall k :: 0 <= k < |r| ==> t[|p| + k] == r[k];
    if IsMatch(t, |p| + i, |p| + j) {
      forall k | i + 2 <= k < j - 1 ensures r[k] != '}' { assert t[|p| + k] != '}'; }
    }
  }

  lemma StableAfterInert(v: string, r: string)
    requires Inert(v) && Stable(r)
    ensures Stable(v + r)
  {
    var t := v + r;
    forall i: nat, j: nat ensures !IsMatch(t, i, j) {
      if |v| <= i && |v| <= j {
        MatchShift(v, r, i - |v|, j - |v|);
      } else if i < |v| && i + 3 < |t| {
        assert t[i] == v[i];
        assert i + 1 < |v| ==> t[i + 1] == v[i + 1];
        assert i + 2 < |v| ==> t[i + 2] == v[i + 2];
      }
    }
  }

  lemma NoMatchAtFront(c: char, r: string, q: nat)
    requires c == '$' && |r| >= 2 && r[0] == '{' ==> r[1] == '}' || '}' !in r
    ensures !IsMatch([c] + r, 0, q)
  {
    var t := [c] + r;
    if 4 <= q <= |t| {
      assert t[0] == c && t[1] == r[0] && t[2] == r[1] && t[q - 1] == r[q - 2];
    }
  }

  lemma StableAfterChar(c: char, r: string)
    requires Stable(r)
    requires c == '$' && |r| >= 2 && r[0] == '{' ==> r[1] == '}' || '}' !in r
    ensures Stable([c] + r)
  {
    hide IsMatch;
    forall p: nat, q: nat ensures !IsMatch([c] + r, p, q) {
      if p == 0 {
        NoMatchAtFront(c, r, q);
      } else if q == 0 {
        MatchNotEmpty([c] + r, p, q);
      } else {
        MatchShift([c], r, p - 1, q - 1);
      }
    }
  }

  lemma MatchNotEmpty(s: string, i: nat, j: nat)
    ensures IsMatch(s, i, j) ==> i < j
  {
  }

  /** A '$' kept as text is followed by "{x...}" only if it was in the input. */
  lemma NoMatchThroughLiteral(s: string, i: nat, env: Env)
    requires i < |s| && s[i] == '$' && MatchEnd(s, i) == 0
    requires forall n :: n in Names(s, i + 1) ==> Inert(env(n))
    ensures var r := Scan(s, i + 1, env); |r| >= 2 && r[0] == '{' ==> r[1] == '}' || '}' !in r
  {
    var r := Scan(s, i + 1, env);
    if i + 1 < |s| && |r| >= 2 && r[0] == '{' {
      var j := MatchEnd(s, i + 1);
      if j != 0 {
        var v := env(NameOf(s, i + 1, j));
        assert NameOf(s, i + 1, j) in Names(s, i + 1);
        assert r[0] == v[0] && r[1] == v[1];
      } else {
        assert r == [s[i + 1]] + Scan(s, i + 2, env) && s[i + 1] == '{';
        var c := CloseAt(s, i + 2);
        if c == i + 2 && c < |s| {
          assert MatchEnd(s, i + 2) == 0;
          assert r[1] == '}';
        } else {
          NoCloseNoMatch(s, i + 2, env);
        }
      }
    }
  }

  /** Expanding twice is expanding once, whenever the values the text uses are inert. */
  lemma InertIsIdempotent(s: string, env: Env)
    requires forall n :: n in Names(s, 0) ==> Inert(env(n))
    ensures Stable(ExpandString(s, env))
    ensures ExpandString(ExpandString(s, env), env) == ExpandString(s, env)
  {
    InertScanIsStable(s, 0, env);
    if !HasOpening(s) { StableIsFixed(s, env); }
    StableIsFixed(ExpandString(s, env), env);
  }

  // ---------- and exactly then ----------

  predicate ValidName(n: string) {
    n != "" && '}' !in n
  }

  function Reference(n: string): (r: string)
    ensures |r| == |n| + 3 && r[0] == '$'
  {
    "${" + n + "}"
  }

  lemma MatchEndShift(s: string, t: string, i: nat)
    ensures MatchEnd(s + t, |s| + i) == if MatchEnd(t, i) == 0 then 0 else |s| + MatchEnd(t, i)
  {
    var a, b := MatchEnd(t, i), MatchEnd(s + t, |s| + i);
    if a != 0 { MatchShift(s, t, i, a); }
    if b != 0 { MatchShift(s, t, i, b - |s|); }
  }

  lemma {:induction false} ScanSuffix(s: string, t: string, i: nat, env: Env)
    requires i <= |t|
    ensures Scan(s + t, |s| + i, env) == Scan(t, i, env) && Names(s + t, |s| + i) == Names(t, i)
    decreases |t| - i
  {
    hide MatchEnd, Scan, Names;
    if i < |t| {
      var j := MatchEnd(t, i);
      MatchEndShift(s, t, i);
      ScanStep(s + t, |s| + i, env);
      ScanStep(t, i, env);
      assert (s + t)[|s| + i] == t[i];
      if j != 0 {
        assert NameOf(s + t, |s| + i, |s| + j) == NameOf(t, i, j);
        ScanSuffix(s, t, j, env);
      } else {
        ScanSuffix(s, t, i + 1, env);
      }
    } else {
      ScanEnd(s + t, env);
      ScanEnd(t, env);
    }
  }

  lemma ReferenceMatches(n: string, rest: string)
    requires ValidName(n)
    ensures var s, j := Reference(n) + rest, |Reference(n)|;
            MatchEnd(s, 0) == j && NameOf(s, 0, j) == n
  {
    var s, j := Reference(n) + rest, |n| + 3;
    assert s[0] == '$' && s[1] == '{' && s[j - 1] == '}';
    assert s[2..j - 1] == n;
    forall k | 2 <= k < j - 1 ensures s[k] != '}' {
      assert s[k] == n[k - 2] && n[k - 2] in n;
    }
    assert IsMatch(s, 0, j);
  }

  lemma ScanReference(n: string, rest: string, env: Env)
    requires ValidName(n)
    ensures var s := Reference(n) + rest;
            Scan(s, 0, env) == env(n) + Scan(rest, 0, env) && Names(s, 0) == {n} + Names(rest, 0)
  {
    hide Scan, Names, MatchEnd;
    ReferenceMatches(n, rest);
    ScanStep(Reference(n) + rest, 0, env);
    ScanSuffix(Reference(n), rest, 0, env);
  }

  lemma DollarIsText(t: string)
    requires t != "" && t[0] == '$'
    ensures MatchEnd("$" + t, 0) == 0
  {
  }

  lemma ScanDollar(n: string, rest: string, env: Env)
    requires ValidName(n)
    ensures var s := "$" + (Reference(n) + rest);
            Scan(s, 0, env) == "$" + (env(n) + Scan(rest, 0, env)) && Names(s, 0) == {n} + Names(rest, 0)
  {
    hide Scan, Names, Reference, MatchEnd;
    var t := Reference(n) + rest;
    DollarIsText(t);
    ScanStep("$" + t, 0, env);
    ScanSuffix("$", t, 0, env);
    ScanReference(n, rest, env);
  }

  lemma {:induction false} NoDollarScan(t: string, i: nat, env: Env)
    requires i <= |t| && '$' !in t
    ensures Scan(t, i, env) == t[i..] && Names(t, i) == {}
    decreases |t| - i
  {
    if i < |t| {
      assert t[i] in t;
      NoDollarScan(t, i + 1, env);
    }
  }

  /** A text that uses only n and is not fully expanded in one pass. */
  function Revealing(n: string, v: string): string {
    if v == "" then "$" + (Reference(n) + "{x}")
    else if v[|v| - 1] == '$' then Reference(n) + "{x}"
    else if v[0] == '{' && (|v| == 1 || v[1] != '}') then "$" + (Reference(n) + "x}")
    else Reference(n) + "x}"
  }

  /** What the scanner makes of it. */
  lemma RevealingScan(n: string, env: Env)
    requires ValidName(n)
    ensures var v, s := env(n), Revealing(n, env(n));
            && HasOpening(s) && Names(s, 0) == {n}
            && Scan(s, 0, env) ==
               if v == "" then "$" + ("" + "{x}")
               else if v[|v| - 1] == '$' then v + "{x}"
               else if v[0] == '{' && (|v| == 1 || v[1] != '}') then "$" + (v + "x}")
               else v + "x}"
  {
    hide Scan, Names;
    var v, s := env(n), Revealing(n, env(n));
    var rest := if v == "" || v[|v| - 1] == '$' then "{x}" else "x}";
    NoDollarScan(rest, 0, env);
    assert rest[0..] == rest;
    ScanReference(n, rest, env);
    ScanDollar(n, rest, env);
    assert (Reference(n) + rest)[0] == '$' && (Reference(n) + rest)[1] == '{';
    assert ("$" + (Reference(n) + rest))[1] == '$' && ("$" + (Reference(n) + rest))[2] == '{';
  }

  lemma NotInertReveals(n: string, env: Env)
    requires ValidName(n) && !Inert(env(n))
    ensures var s := Revealing(n, env(n)); Names(s, 0) == {n} && !Stable(ExpandString(s, env))
  {
    hide Scan, Names;
    var v := env(n);
    var r := Scan(Revealing(n, v), 0, env);
    RevealingScan(n, env);
    if v == "" {
      OpeningIsClosed(r, 0);
    } else if v[|v| - 1] == '$' {
      assert r[|v|] == '{' && r[|v| + 1] == 'x';
      OpeningIsClosed(r, |v| - 1);
    } else if v[0] == '{' && (|v| == 1 || v[1] != '}') {
      assert r[1] == v[0] && r[2] == (v + "x}")[1];
      OpeningIsClosed(r, 0);
    } else {
      var i :| 0 <= i < |v| - 1 && v[i] == '$' && v[i + 1] == '{' && !(i + 2 < |v| && v[i + 2] == '}');
      OpeningIsClosed(r, i);
    }
  }

  lemma OpeningIsClosed(r: string, i: nat)
    requires i + 3 < |r| && r[i] == '$' && r[i + 1] == '{' && r[i + 2] != '}' && r[|r| - 1] == '}'
    ensures !Stable(r)
  {
    var c := CloseAt(r, i + 2);
    assert IsMatch(r, i, c + 1);
  }

  /** One pass expands every text over a set of names completely exactly when each of
      their values is inert. */
  lemma OnePassIsEnoughExactly(names: set<string>, env: Env)
    ensures (forall s :: Names(s, 0) <= names ==> Stable(ExpandString(s, env)))
            <==> (forall n :: n in names && ValidName(n) ==> Inert(env(n)))
  {
    if forall n :: n in names && ValidName(n) ==> Inert(env(n)) {
      forall s | Names(s, 0) <= names ensures Stable(ExpandString(s, env)) {
        NamesAreValid(s, 0);
        InertIsIdempotent(s, env);
      }
    } else {
      var n :| n in names && ValidName(n) && !Inert(env(n));
      NotInertReveals(n, env);
      assert Names(Revealing(n, env(n)), 0) <= names;
    }
  }

  lemma {:induction false} NamesAreValid(s: string, i: nat)
    requires i <= |s|
    ensures forall n :: n in Names(s, i) ==> ValidName(n)
    decreases |s| - i
  {
    if i < |s| {
      var j := MatchEnd(s, i);
      NamesAreValid(s, if j != 0 then j else i + 1);
    }
  }

  // ---------- when twice is once ----------

  /** An environment holds finitely many variables, so a long enough name is not set. */
  ghost predicate Finite(env: Env, longest: nat) {
    forall n :: |n| > longest ==> env(n) == ""
  }

  /** The text ends inside what may become a reference: in a '$' kept as text, or in an
      opening that has no '}' yet. */
  predicate Dangling(x: string, i: nat)
    requires i <= |x|
    decreases |x| - i
  {
    i < |x| &&
    var j := MatchEnd(x, i);
    if j != 0 then Dangling(x, j) else Opens(x, i) || Dangling(x, i + 1)
  }

  predicate Opens(x: string, i: nat)
    requires i < |x|
  {
    x[i] == '$' && (i + 1 == |x| || (x[i + 1] == '{' && CloseAt(x, i + 2) == |x|))
  }

  /** A value that expansion keeps and whose ends join no reference, by itself or after a '$'. */
  predicate Settled(v: string, env: Env) {
    Closed(v, env) && Closed("$" + v, env)
  }

  predicate Closed(x: string, env: Env) {
    Scan(x, 0, env) == x && !Dangling(x, 0)
  }

  lemma ExpandIsScan(s: string, env: Env)
    ensures ExpandString(s, env) == Scan(s, 0, env)
  {
    if !HasOpening(s) { StableIsFixed(s, env); }
  }

  lemma MatchEndPrefix(x: string, y: string, i: nat)
    requires i < |x| && (MatchEnd(x, i) != 0 || !Opens(x, i))
    ensures MatchEnd(x + y, i) == MatchEnd(x, i)
  {
    var t, j := x + y, MatchEnd(x, i);
    assert forall k :: 0 <= k < |x| ==> t[k] == x[k];
    if j != 0 {
      assert IsMatch(t, i, j);
    } else if i + 1 < |x| && x[i] == '$' && x[i + 1] == '{' {
      assert CloseAt(x, i + 2) == i + 2;
      assert t[i + 2] == '}';
    }
  }

  /** Text after a text that does not dangle is expanded on its own. */
  lemma {:induction false} ScanConcat(x: string, i: nat, y: string, env: Env)
    requires i <= |x| && !Dangling(x, i)
    ensures Scan(x + y, i, env) == Scan(x, i, env) + Scan(y, 0, env)
    decreases |x| - i
  {
    hide MatchEnd, Scan, Names, Opens;
    if i == |x| {
      ScanSuffix(x, y, 0, env);
      ScanEnd(x, env);
    } else {
      var j, rest := MatchEnd(x, i), Scan(y, 0, env);
      MatchEndPrefix(x, y, i);
      ScanStep(x, i, env);
      ScanStep(x + y, i, env);
      assert (x + y)[i] == x[i];
      if j != 0 {
        assert NameOf(x + y, i, j) == NameOf(x, i, j);
        ScanConcat(x, j, y, env);
        var v := env(NameOf(x, i, j));
        assert v + (Scan(x, j, env) + rest) == v + Scan(x, j, env) + rest;
      } else {
        ScanConcat(x, i + 1, y, env);
        assert [x[i]] + (Scan(x, i + 1, env) + rest) == [x[i]] + Scan(x, i + 1, env) + rest;
      }
    }
  }

  lemma ClosedThen(x: string, y: string, env: Env)
    requires Closed(x, env) && Scan(y, 0, env) == y
    ensures Scan(x + y, 0, env) == x + y
  {
    ScanConcat(x, 0, y, env);
  }

  lemma ClosedChar(c: char, env: Env)
    requires c != '$'
    ensures Closed([c], env)
  {
    var x := [c];
    assert MatchEnd(x, 0) == 0;
    assert Scan(x, 0, env) == [c] + Scan(x, 1, env);
  }

  /** Expanding settled values gives a text that expansion keeps. */
  lemma {:induction false} SettledScan(s: string, i: nat, env: Env)
    requires i <= |s| && forall n :: n in Names(s, i) ==> Settled(env(n), env)
    ensures var t := Scan(s, i, env); Scan(t, 0, env) == t
    decreases |s| - i
  {
    hide MatchEnd, Scan, Names, Closed;
    if i == |s| {
      ScanEnd(s, env);
      ScanEnd("", env);
    } else {
      var j := MatchEnd(s, i);
      ScanStep(s, i, env);
      if j != 0 {
        SettledScan(s, j, env);
        ClosedThen(env(NameOf(s, i, j)), Scan(s, j, env), env);
      } else if s[i] != '$' {
        SettledScan(s, i + 1, env);
        ClosedChar(s[i], env);
        ClosedThen([s[i]], Scan(s, i + 1, env), env);
      } else {
        DollarScan(s, i, env);
      }
    }
  }

  /** The case of a '$' kept as text. */
  lemma {:induction false} DollarScan(s: string, i: nat, env: Env)
    requires i < |s| && s[i] == '$' && MatchEnd(s, i) == 0
    requires forall n :: n in Names(s, i) ==> Settled(env(n), env)
    ensures var t := Scan(s, i, env); Scan(t, 0, env) == t
    decreases |s| - i, 0
  {
    hide MatchEnd, Scan, Names, Closed;
    ScanStep(s, i, env);
    var r := Scan(s, i + 1, env);
    var j := if i + 1 < |s| then MatchEnd(s, i + 1) else 0;
    if j != 0 {
      ScanStep(s, i + 1, env);
      SettledScan(s, j, env);
      var v := env(NameOf(s, i + 1, j));
      ClosedThen("$" + v, Scan(s, j, env), env);
      assert "$" + v + Scan(s, j, env) == "$" + (v + Scan(s, j, env));
    } else {
      SettledScan(s, i + 1, env);
      DollarKeepsApart(s, i, env);
      ScanStep("$" + r, 0, env);
      ScanSuffix("$", r, 0, env);
    }
  }

  lemma DollarKeepsApart(s: string, i: nat, env: Env)
    requires i < |s| && s[i] == '$' && MatchEnd(s, i) == 0 && (i + 1 < |s| ==> MatchEnd(s, i + 1) == 0)
    ensures MatchEnd("$" + Scan(s, i + 1, env), 0) == 0
  {
    var r := Scan(s, i + 1, env);
    if i + 1 < |s| {
      assert r == [s[i + 1]] + Scan(s, i + 2, env);
      if s[i + 1] == '{' { OpeningKeepsApart(s, i, env); }
    }
    NoMatchAtFront('$', r, MatchEnd("$" + r, 0));
  }

  lemma OpeningKeepsApart(s: string, i: nat, env: Env)
    requires i + 1 < |s| && s[i] == '$' && s[i + 1] == '{' && MatchEnd(s, i) == 0
    ensures var r := Scan(s, i + 1, env); |r| >= 2 && r[0] == '{' ==> r[1] == '}' || '}' !in r
  {
    var r := Scan(s, i + 1, env);
    assert MatchEnd(s, i + 1) == 0;
    assert r == ['{'] + Scan(s, i + 2, env);
    var c := CloseAt(s, i + 2);
    if c == i + 2 && c < |s| {
      assert MatchEnd(s, i + 2) == 0;
    } else {
      NoCloseNoMatch(s, i + 2, env);
    }
  }

  function Repeat(c: char, n: nat): (s: string)
    ensures |s| == n && forall k :: 0 <= k < n ==> s[k] == c
  {
    seq(n, _ => c)
  }

  /** Text that closes every opening, with a name that is not set. */
  function Closer(longest: nat): (c: string)
    ensures |c| == longest + 3
  {
    "{" + Repeat('x', longest + 1) + "}"
  }

  lemma MatchEndClosed(x: string, i: nat, longest: nat)
    requires i < |x| && MatchEnd(x, i) == 0 && Opens(x, i)
    ensures var t := x + Closer(longest);
            MatchEnd(t, i) == |t| && |NameOf(t, i, |t|)| > longest
  {
    var c := Closer(longest);
    var t := x + c;
    assert forall k :: 0 <= k < |x| ==> t[k] == x[k];
    assert forall k :: 0 <= k < |c| ==> t[|x| + k] == c[k];
    assert t[i] == '$' && t[i + 1] == '{' && t[|t| - 1] == '}';
    forall k | i + 2 <= k < |t| - 1 ensures t[k] != '}' {
      assert k < |x| ==> t[k] == x[k];
      assert k >= |x| ==> t[k] == c[k - |x|];
    }
    assert IsMatch(t, i, |t|);
  }

  /** What dangles is lost with such a text after it. */
  lemma {:induction false} DanglingIsLost(x: string, i: nat, env: Env, longest: nat)
    requires i <= |x| && Dangling(x, i) && Finite(env, longest)
    ensures |Scan(x + Closer(longest), i, env)| < |Scan(x, i, env)| + |Closer(longest)|
    decreases |x| - i
  {
    hide MatchEnd, Scan, Names, Opens, Closer;
    var t, j := x + Closer(longest), MatchEnd(x, i);
    ScanStep(x, i, env);
    ScanStep(t, i, env);
    if j == 0 && Opens(x, i) {
      MatchEndClosed(x, i, longest);
      ScanEnd(t, env);
    } else {
      MatchEndPrefix(x, Closer(longest), i);
      assert t[i] == x[i];
      if j != 0 {
        assert NameOf(t, i, j) == NameOf(x, i, j);
        DanglingIsLost(x, j, env, longest);
      } else {
        DanglingIsLost(x, i + 1, env, longest);
      }
    }
  }

  lemma CloserScan(longest: nat, env: Env)
    ensures var c := Closer(longest); Scan(c, 0, env) == c && Names(c, 0) == {}
  {
    var c := Closer(longest);
    NoDollarScan(c, 0, env);
    assert c[0..] == c;
  }

  lemma UnclosedChanges(x: string, env: Env, longest: nat) returns (rest: string)
    requires !Closed(x, env) && Finite(env, longest)
    ensures Scan(rest, 0, env) == rest && Names(rest, 0) == {} && Scan(x + rest, 0, env) != x + rest
  {
    hide Scan, Names, Dangling, Closer;
    if Scan(x, 0, env) != x {
      rest := "";
      ScanEnd("", env);
      assert x + rest == x;
    } else {
      rest := Closer(longest);
      CloserScan(longest, env);
      DanglingIsLost(x, 0, env, longest);
    }
  }

  /** A value that is not settled gives a text over its name that a second pass changes. */
  lemma UnsettledShows(n: string, env: Env, longest: nat) returns (s: string)
    requires ValidName(n) && !Settled(env(n), env) && Finite(env, longest)
    ensures Names(s, 0) == {n} && ExpandString(ExpandString(s, env), env) != ExpandString(s, env)
  {
    hide Scan, Names, Closed, Reference, ExpandString;
    var v := env(n);
    if !Closed(v, env) {
      var rest := UnclosedChanges(v, env, longest);
      s := Reference(n) + rest;
      ScanReference(n, rest, env);
    } else {
      var rest := UnclosedChanges("$" + v, env, longest);
      s := "$" + (Reference(n) + rest);
      ScanDollar(n, rest, env);
      assert "$" + (v + rest) == "$" + v + rest;
    }
    ExpandIsScan(s, env);
    ExpandIsScan(ExpandString(s, env), env);
  }

  /** Expanding twice is expanding once, for every text over a set of names, exactly when
      each of their values is settled. */
  lemma IdempotentExactly(names: set<string>, env: Env, longest: nat)
    requires Finite(env, longest)
    ensures (forall s :: Names(s, 0) <= names ==> ExpandString(ExpandString(s, env), env) == ExpandString(s, env))
            <==> (forall n :: n in names && ValidName(n) ==> Settled(env(n), env))
  {
    hide Scan, Names, Settled, ExpandString;
    if forall n :: n in names && ValidName(n) ==> Settled(env(n), env) {
      forall s | Names(s, 0) <= names
        ensures ExpandString(ExpandString(s, env), env) == ExpandString(s, env)
      {
        NamesAreValid(s, 0);
        SettledScan(s, 0, env);
        ExpandIsScan(s, env);
        ExpandIsScan(ExpandString(s, env), env);
      }
    } else {
      var n :| n in names && ValidName(n) && !Settled(env(n), env);
      var s := UnsettledShows(n, env, longest);
      assert Names(s, 0) <= names;
    }
  }

  /** An inert value is settled, whatever the environment. */
  lemma InertIsSettled(v: string, env: Env)
    requires Inert(v)
    ensures Settled(v, env)
  {
    NoneIsClosed(v, env);
    NoneIsClosed("$" + v, env);
  }

  lemma NoneIsClosed(x: string, env: Env)
    requires x != "" && x[|x| - 1] != '$'
    requires forall i :: 0 <= i < |x| - 1 && x[i] == '$' && x[i + 1] == '{' ==> i + 2 < |x| && x[i + 2] == '}'
    ensures Closed(x, env)
  {
    forall i: nat, j: nat ensures !IsMatch(x, i, j) {
      assert i + 4 <= j <= |x| && x[i] == '$' && x[i + 1] == '{' ==> i + 2 < j - 1 && x[i + 2] == '}';
    }
    StableIsFixed(x, env);
    NoneDangles(x, 0);
  }

  lemma {:induction false} NoneDangles(x: string, i: nat)
    requires i <= |x| && x != "" && x[|x| - 1] != '$'
    requires forall i :: 0 <= i < |x| - 1 && x[i] == '$' && x[i + 1] == '{' ==> i + 2 < |x| && x[i + 2] == '}'
    ensures !Dangling(x, i)
    decreases |x| - i
  {
    if i < |x| { NoneDangles(x, if MatchEnd(x, i) != 0 then MatchEnd(x, i) else i + 1); }
  }

  lemma {:induction false} LastDollarDangles(x: string, i: nat)
    requires i < |x| && x[|x| - 1] == '$'
    ensures Dangling(x, i)
    decreases |x| - i
  {
    if MatchEnd(x, i) != 0 {
      LastDollarDangles(x, MatchEnd(x, i));
    } else if i + 1 < |x| {
      LastDollarDangles(x, i + 1);
    }
  }

  /** Where no value holds "${", only inert values are settled: the two conditions agree. */
  lemma SettledIsInert(v: string, env: Env)
    requires !HasOpening(v) && forall m :: !HasOpening(env(m))
    ensures Settled(v, env) <==> Inert(v)
  {
    if Inert(v) {
      InertIsSettled(v, env);
    } else if v == "" {
      LastDollarDangles("$" + v, 0);
    } else if v[|v| - 1] == '$' {
      LastDollarDangles(v, 0);
    } else {
      BraceIsUnsettled(v, env);
    }
  }

  lemma FrontOpens(value: string, x: string, k: nat)
    requires 2 <= k <= |x| && x[0] == '$' && x[1] == '{' && !HasOpening(value)
    ensures value + x[k..] != x
  {
    if |value| == k {
      assert (value + x[k..])[0] == value[0] && (value + x[k..])[1] == value[1];
    }
  }

  lemma BraceIsUnsettled(v: string, env: Env)
    requires !HasOpening(v) && forall m :: !HasOpening(env(m))
    requires v != "" && v[0] == '{' && !(|v| >= 2 && v[1] == '}')
    ensures !Closed("$" + v, env)
  {
    var x := "$" + v;
    var c := CloseAt(x, 2);
    if c == |x| {
      assert Opens(x, 0) && MatchEnd(x, 0) == 0;
    } else {
      assert MatchEnd(x, 0) == c + 1;
      var value := env(NameOf(x, 0, c + 1));
      forall i, j | c + 1 <= i < |x| ensures !IsMatch(x, i, j) {
        assert i + 1 < |x| ==> x[i] == v[i - 1] && x[i + 1] == v[i];
      }
      LiteralRun(x, c + 1, |x|, env);
      assert Scan(x, 0, env) == value + x[c + 1..];
      FrontOpens(value, x, c + 1);
    }
  }

  /** So expansion is not idempotent as such: any variable that is unset gives a text on
      which a second pass changes the result. */
  lemma UnsetBreaksIdempotence(n: string, env: Env, longest: nat)
    requires ValidName(n) && env(n) == "" && Finite(env, longest)
    ensures var s := "$" + (Reference(n) + Closer(longest));
            ExpandString(s, env) == "$" + Closer(longest) && ExpandString(ExpandString(s, env), env) == ""
  {
    hide Scan, Names, ExpandString, MatchEnd, Reference, Closer;
    var c, w := Closer(longest), Repeat('x', longest + 1);
    CloserScan(longest, env);
    CloserCloses(longest);
    ScanDollar(n, c, env);
    ExpandIsScan("$" + (Reference(n) + c), env);
    assert "" + c == c && Reference(w) + "" == Reference(w);
    ScanReference(w, "", env);
    ScanEnd("", env);
    ExpandIsScan("$" + c, env);
  }

  lemma CloserCloses(longest: nat)
    ensures var w := Repeat('x', longest + 1);
            "$" + Closer(longest) == Reference(w) && ValidName(w)
  {
  }
}
