/** Event names: a dotted namespace of facts, and the same with a version suffix `.vN`. */
module EventNames {
  import opened Options
  import opened Text

  // ---- Decimal numerals ----

  function Digit(n: nat): char
    requires n < 10
  {
    ('0' as int + n) as char
  }

  predicate IsDigit(c: char) { '0' <= c <= '9' }

  function Decimal(n: nat): string {
    if n < 10 then [Digit(n)] else Decimal(n / 10) + [Digit(n % 10)]
  }

  function ReadDecimal(d: string): nat
    requires forall i :: 0 <= i < |d| ==> IsDigit(d[i])
  {
    if d == [] then 0
    else
      assert IsDigit(d[|d| - 1]);
      10 * ReadDecimal(d[..|d| - 1]) + (d[|d| - 1] as int - '0' as int)
  }

  /** `[1-9][0-9]*` */
  predicate IsNumeral(d: string) {
    d != [] && d[0] != '0' && forall i :: 0 <= i < |d| ==> IsDigit(d[i])
  }

  lemma {:induction false} DecimalReads(n: nat)
    ensures forall i :: 0 <= i < |Decimal(n)| ==> IsDigit(Decimal(n)[i])
    ensures Decimal(n) != [] && ReadDecimal(Decimal(n)) == n
    ensures 1 <= n ==> IsNumeral(Decimal(n))
  {
    if 10 <= n {
      DecimalReads(n / 10);
      var d := Decimal(n / 10);
      assert (d + [Digit(n % 10)])[..|d|] == d;
    } else {
      assert Decimal(n)[..0] == [];
    }
  }

  function Power10(n: nat): nat { if n == 0 then 1 else 10 * Power10(n - 1) }

  function DigitValue(c: char): int { c as int - '0' as int }

  lemma ReadOneMore(d: string, c: char)
    requires (forall i :: 0 <= i < |d| ==> IsDigit(d[i])) && IsDigit(c)
    ensures ReadDecimal(d + [c]) == 10 * ReadDecimal(d) + DigitValue(c)
  {
    assert (d + [c])[..|d|] == d;
  }

  /** The first digit has the weight of its position. */
  lemma {:induction false} FirstDigitWeighs(c: char, rest: string)
    requires IsDigit(c) && forall i :: 0 <= i < |rest| ==> IsDigit(rest[i])
    ensures forall i :: 0 <= i < |[c] + rest| ==> IsDigit(([c] + rest)[i])
    ensures ReadDecimal([c] + rest) == DigitValue(c) * Power10(|rest|) + ReadDecimal(rest)
  {
    if rest == [] {
      assert [c] + rest == [] + [c];
      ReadOneMore([], c);
    } else {
      var n := |rest| - 1;
      var init, last := rest[..n], rest[n];
      assert rest == init + [last];
      assert [c] + rest == ([c] + init) + [last];
      FirstDigitWeighs(c, init);
      ReadOneMore(init, last);
      ReadOneMore([c] + init, last);
      hide ReadDecimal, DigitValue;
      TenTimes(DigitValue(c), Power10(n), ReadDecimal(init), DigitValue(last));
    }
  }

  lemma TenTimes(first: int, weight: int, rest: int, last: int)
    ensures 10 * (first * weight + rest) + last == first * (10 * weight) + (10 * rest + last)
  {
  }

  lemma {:induction false} ReadingPrints(d: string)
    requires IsNumeral(d)
    ensures 1 <= ReadDecimal(d) && Decimal(ReadDecimal(d)) == d
  {
    var n := |d| - 1;
    if n == 0 {
      assert d[..0] == [] && d == [d[0]];
    } else {
      ReadingPrints(d[..n]);
      assert d == d[..n] + [d[n]];
    }
  }

  // ---- Cleaning, segments and patterns ----

  function LowerChar(c: char): char {
    if 'A' <= c <= 'Z' then (c as int + 32) as char else c
  }

  function Lower(s: string): string {
    seq(|s|, i requires 0 <= i < |s| => LowerChar(s[i]))
  }

  /** `str(value or "").strip().lower()` */
  function Clean(s: string): string { Lower(Strip(s)) }

  predicate IsLetter(c: char) { 'a' <= c <= 'z' }

  predicate IsWordChar(c: char) { IsLetter(c) || IsDigit(c) || c == '_' }

  /** `[a-z][a-z0-9_]*` */
  predicate IsSegment(s: string) {
    s != [] && IsLetter(s[0]) && forall i :: 0 <= i < |s| ==> IsWordChar(s[i])
  }

  function Split(s: string, sep: char): seq<string> {
    if s == [] then [[]]
    else
      var rest := Split(s[1..], sep);
      if s[0] == sep then [[]] + rest
      else if rest == [] then [[s[0]]]
      else [[s[0]] + rest[0]] + rest[1..]
  }

  /** At least `least` segments, joined by dots. */
  predicate IsDotted(s: string, least: nat) {
    var segments := Split(s, '.');
    least <= |segments| && forall i :: 0 <= i < |segments| ==> IsSegment(segments[i])
  }

  const COMMAND_TOKENS: set<string> := {
    "command", "delete", "delete_everything", "do", "execute", "now", "publish_this", "run",
    "send", "send_message", "update_every", "update_every_school"
  }

  /** A segment, or a part of one between underscores, that orders something to be done. */
  predicate IsCommand(s: string) {
    exists i :: 0 <= i < |Split(s, '.')| &&
      (Split(s, '.')[i] in COMMAND_TOKENS
       || exists j :: 0 <= j < |Split(Split(s, '.')[i], '_')| && Split(Split(s, '.')[i], '_')[j] in COMMAND_TOKENS)
  }

  predicate IsNamespace(s: string) {
    IsDotted(s, 2) && !IsCommand(s)
  }

  // ---- The three entry points ----

  datatype EventName = EventName(eventType: string, version: nat, canonical: string)

  function ValidateNamespace(eventType: string): Option<string> {
    var value := Clean(eventType);
    if IsNamespace(value) then Some(value) else None
  }

  function BuildName(eventType: string, version: int): Option<string> {
    var namespace := ValidateNamespace(eventType);
    if namespace == None || version < 1 then None
    else Some(namespace.value + ".v" + Decimal(version))
  }

  /** The versioned pattern, as a relation between a name and its two groups. */
  predicate Matches(name: string, t: string, d: string) {
    name == t + ".v" + d && IsDotted(t, 1) && IsNumeral(d)
  }

  function LastDot(s: string): Option<nat> {
    if s == [] then None
    else if s[|s| - 1] == '.' then Some(|s| - 1)
    else LastDot(s[..|s| - 1])
  }

  /** The two groups of the versioned pattern, found by cutting at the last dot. */
  function MatchVersioned(name: string): Option<(string, string)> {
    match LastDot(name)
    case None => None
    case Some(k) =>
      if k < |name| && k + 1 < |name| && name[k + 1] == 'v' && IsNumeral(name[k + 2..]) && IsDotted(name[..k], 1)
      then Some((name[..k], name[k + 2..])) else None
  }

  function NormalizeName(eventName: string): Option<EventName> {
    match MatchVersioned(Clean(eventName))
    case None => None
    case Some((t, d)) =>
      match ValidateNamespace(t)
      case None => None
      case Some(namespace) =>
        if forall i :: 0 <= i < |d| ==> IsDigit(d[i]) then
          var version := ReadDecimal(d);
          Some(EventName(namespace, version, namespace + ".v" + Decimal(version)))
        else None
  }

  // ---- The pattern has at most one match, and cutting at the last dot finds it ----

  lemma {:induction false} LastDotIs(s: string, k: nat)
    requires k < |s| && s[k] == '.' && forall i :: k < i < |s| ==> s[i] != '.'
    ensures LastDot(s) == Some(k)
    decreases |s|
  {
    if k < |s| - 1 {
      LastDotIs(s[..|s| - 1], k);
    }
  }

  lemma {:induction false} LastDotBounds(s: string)
    ensures LastDot(s).Some? ==> LastDot(s).value < |s| && s[LastDot(s).value] == '.'
  {
    if s != [] && s[|s| - 1] != '.' {
      LastDotBounds(s[..|s| - 1]);
    }
  }

  lemma MatchIsTheLastDot(name: string, t: string, d: string)
    ensures MatchVersioned(name) == Some((t, d)) <==> Matches(name, t, d)
  {
    LastDotBounds(name);
    if Matches(name, t, d) {
      assert name[|t|] == '.' && name[|t| + 1] == 'v';
      assert name[|t| + 2..] == d && name[..|t|] == t;
      forall i | |t| < i < |name|
        ensures name[i] != '.'
      {
        assert i == |t| + 1 || name[i] == d[i - |t| - 2];
      }
      LastDotIs(name, |t|);
    }
    if MatchVersioned(name) == Some((t, d)) {
      var k := LastDot(name).value;
      assert name == name[..k] + [name[k]] + [name[k + 1]] + name[k + 2..];
      assert ".v" == ['.', 'v'];
    }
  }

  // ---- Clean names are left alone ----

  predicate IsPlain(s: string) {
    forall i :: 0 <= i < |s| ==> IsWordChar(s[i]) || s[i] == '.'
  }

  lemma CleanKeepsPlain(s: string)
    requires IsPlain(s)
    ensures Clean(s) == s
  {
    assert Strip(s) == s;
    assert Lower(s) == s;
  }

  lemma {:induction false} SplitParts(s: string, sep: char)
    ensures Split(s, sep) != []
    ensures forall i :: 0 <= i < |s| ==>
              s[i] == sep ||
              exists j, k :: 0 <= j < |Split(s, sep)| && 0 <= k < |Split(s, sep)[j]| && Split(s, sep)[j][k] == s[i]
  {
    if s != [] {
      SplitParts(s[1..], sep);
      var rest, parts := Split(s[1..], sep), Split(s, sep);
      forall i | 0 <= i < |s| && s[i] != sep
        ensures exists j, k :: 0 <= j < |parts| && 0 <= k < |parts[j]| && parts[j][k] == s[i]
      {
        if i == 0 {
          assert parts[0][0] == s[0];
        } else {
          assert s[1..][i - 1] == s[i];
          var j, k :| 0 <= j < |rest| && 0 <= k < |rest[j]| && rest[j][k] == s[i];
          if s[0] == sep {
            assert parts[j + 1][k] == s[i];
          } else if j == 0 {
            assert parts[0][k + 1] == s[i];
          } else {
            assert parts[j][k] == s[i];
          }
        }
      }
    }
  }

  lemma DottedIsPlain(s: string, least: nat)
    requires IsDotted(s, least)
    ensures IsPlain(s)
  {
    SplitParts(s, '.');
    forall i | 0 <= i < |s| && s[i] != '.'
      ensures IsWordChar(s[i])
    {
      var j, k :| 0 <= j < |Split(s, '.')| && 0 <= k < |Split(s, '.')[j]| && Split(s, '.')[j][k] == s[i];
      assert IsSegment(Split(s, '.')[j]);
    }
  }

  lemma NamespaceIsClean(t: string)
    requires IsNamespace(t)
    ensures ValidateNamespace(t) == Some(t)
  {
    DottedIsPlain(t, 2);
    CleanKeepsPlain(t);
  }

  lemma VersionedIsPlain(t: string, d: string)
    requires IsPlain(t) && IsNumeral(d)
    ensures IsPlain(t + ".v" + d)
  {
  }

  // ---- Printing and parsing are inverse ----

  /**
   Every valid namespace and version comes back exactly, also when the namespace
   itself ends in a segment that looks like a version.
   */
  lemma BuiltNamesParse(t: string, version: nat)
    requires ValidateNamespace(t).Some? && 1 <= version
    ensures BuildName(t, version).Some?
    ensures NormalizeName(BuildName(t, version).value) ==
            Some(EventName(ValidateNamespace(t).value, version, BuildName(t, version).value))
  {
    var namespace := ValidateNamespace(t).value;
    var d := Decimal(version);
    var name := BuildName(t, version).value;
    DecimalReads(version);
    DottedIsPlain(namespace, 2);
    VersionedIsPlain(namespace, d);
    CleanKeepsPlain(name);
    NamespaceIsClean(namespace);
    MatchIsTheLastDot(name, namespace, d);
  }

  /** Every accepted name rebuilds to its own trimmed, lower-case form. */
  lemma ParsedNamesRebuild(name: string)
    requires NormalizeName(name).Some?
    ensures var parsed := NormalizeName(name).value;
            && 1 <= parsed.version
            && parsed.canonical == Clean(name)
            && BuildName(parsed.eventType, parsed.version) == Some(Clean(name))
  {
    var value := Clean(name);
    var (t, d) := MatchVersioned(value).value;
    MatchIsTheLastDot(value, t, d);
    ReadingPrints(d);
    DottedIsPlain(t, 1);
    CleanKeepsPlain(t);
  }

  /** A name is accepted exactly when some namespace and numeral spell its clean form. */
  lemma AcceptedNames(name: string)
    ensures NormalizeName(name).Some? <==>
            exists t, d :: Clean(name) == t + ".v" + d && IsNamespace(t) && IsNumeral(d)
  {
    var value := Clean(name);
    if NormalizeName(name).Some? {
      var (t, d) := MatchVersioned(value).value;
      MatchIsTheLastDot(value, t, d);
      DottedIsPlain(t, 1);
      CleanKeepsPlain(t);
      assert value == t + ".v" + d && IsNamespace(t) && IsNumeral(d);
    }
    if t, d :| value == t + ".v" + d && IsNamespace(t) && IsNumeral(d) {
      MatchIsTheLastDot(value, t, d);
      NamespaceIsClean(t);
    }
  }

  /** Two namespaces and versions never share a name. */
  lemma NamesAreInjective(t: string, v: nat, u: string, w: nat)
    requires ValidateNamespace(t).Some? && ValidateNamespace(u).Some? && 1 <= v && 1 <= w
    requires BuildName(t, v) == BuildName(u, w)
    ensures v == w && ValidateNamespace(t) == ValidateNamespace(u)
  {
    BuiltNamesParse(t, v);
    BuiltNamesParse(u, w);
  }
}
