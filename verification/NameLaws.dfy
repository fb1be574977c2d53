/** Which namespaces are accepted, character by character, and which words they may not contain. */
module NameLaws {
  import opened Options
  import opened Text
  import opened EventNames

  // ---- Shape ----

  predicate IsSmallLetter(c: char) { 'a' <= c <= 'z' }

  predicate MayOccur(c: char) {
    IsSmallLetter(c) || '0' <= c <= '9' || c == '_' || c == '.'
  }

  predicate GoesOn(s: string, i: nat) {
    i < |s| && MayOccur(s[i]) && (s[i] == '.' ==> i + 1 < |s| && IsSmallLetter(s[i + 1]))
  }

  /** Letters, digits, underscores and dots, with a letter after each dot. */
  predicate IsTail(s: string) {
    forall i :: 0 <= i < |s| ==> GoesOn(s, i)
  }

  /** The same, beginning with a letter. */
  predicate IsShaped(s: string) {
    s != "" && IsSmallLetter(s[0]) && IsTail(s)
  }

  predicate AllWordChars(s: string) {
    forall i :: 0 <= i < |s| ==> IsWordChar(s[i])
  }

  predicate AllSegments(parts: seq<string>) {
    forall i :: 0 <= i < |parts| ==> IsSegment(parts[i])
  }

  lemma TailOfMore(s: string)
    requires s != ""
    ensures IsTail(s) <==>
            MayOccur(s[0]) && IsTail(s[1..]) && (s[0] == '.' ==> 1 < |s| && IsSmallLetter(s[1]))
  {
    forall i | 0 <= i < |s[1..]|
      ensures GoesOn(s[1..], i) <==> GoesOn(s, i + 1)
    {
    }
    hide GoesOn;
    if IsTail(s) {
      assert GoesOn(s, 0);
      forall i | 0 <= i < |s[1..]|
        ensures GoesOn(s[1..], i)
      {
        assert GoesOn(s, i + 1);
      }
    }
    if GoesOn(s, 0) && IsTail(s[1..]) {
      forall i | 0 <= i < |s|
        ensures GoesOn(s, i)
      {
        assert i > 0 ==> GoesOn(s[1..], i - 1);
      }
    }
    FirstGoesOn(s);
  }

  lemma FirstGoesOn(s: string)
    requires s != ""
    ensures GoesOn(s, 0) <==> MayOccur(s[0]) && (s[0] == '.' ==> 1 < |s| && IsSmallLetter(s[1]))
  {
  }

  lemma ConsWordChars(c: char, s: string)
    ensures AllWordChars([c] + s) <==> IsWordChar(c) && AllWordChars(s)
  {
    var t := [c] + s;
    assert t[0] == c && t[1..] == s;
    if AllWordChars(t) {
      assert forall i :: 0 <= i < |s| ==> s[i] == t[i + 1];
    }
  }

  /** The first part of a tail continues a segment, the others are segments. */
  lemma {:induction false} TailParts(s: string)
    ensures var parts := Split(s, '.');
            && parts != []
            && (parts[0] == [] <==> s == [] || s[0] == '.')
            && (parts[0] != [] ==> parts[0][0] == s[0])
            && (IsTail(s) <==> AllWordChars(parts[0]) && AllSegments(parts[1..]))
  {
    if s != [] {
      hide IsTail;
      TailParts(s[1..]);
      TailOfMore(s);
      var rest := Split(s[1..], '.');
      if s[0] == '.' {
        assert Split(s, '.')[1..] == rest;
        assert rest == [rest[0]] + rest[1..];
      } else {
        ConsWordChars(s[0], rest[0]);
        assert Split(s, '.')[1..] == rest[1..];
      }
    }
  }

  lemma {:induction false} SplitInTwo(s: string)
    ensures |Split(s, '.')| >= 2 <==> '.' in s
    ensures |Split(s, '.')| >= 1
  {
    if s != [] {
      SplitInTwo(s[1..]);
      assert s == [s[0]] + s[1..];
    }
  }

  /** Segments joined by dots are recognised by their characters. */
  lemma DottedIsShaped(s: string)
    ensures IsDotted(s, 2) <==> IsShaped(s) && '.' in s
  {
    hide IsTail, Split;
    TailParts(s);
    SplitInTwo(s);
    var parts := Split(s, '.');
    assert parts == [parts[0]] + parts[1..];
    if IsShaped(s) {
      assert s[0] != '.' && IsSegment(parts[0]);
    }
    if AllSegments(parts) {
      assert IsSegment(parts[0]);
      assert forall i :: 0 <= i < |parts[1..]| ==> parts[1..][i] == parts[i + 1];
    }
  }

  // ---- Words ----

  /** The part stands between `a` and `b`, which are ends or next to separators, and holds no separator. */
  predicate IsPiece(s: string, a: int, b: int, part: string, seps: set<char>) {
    && 0 <= a <= b <= |s| && s[a..b] == part
    && (a == 0 || s[a - 1] in seps) && (b == |s| || s[b] in seps)
    && forall c :: c in part ==> c !in seps
  }

  ghost predicate HasPiece(s: string, part: string, seps: set<char>) {
    exists a, b :: IsPiece(s, a, b, part, seps)
  }

  /** Everything before the first separator, which is at `k`. */
  lemma {:induction false} SplitAtFirst(s: string, sep: char, k: nat)
    requires k <= |s| && (forall i :: 0 <= i < k ==> s[i] != sep) && (k < |s| ==> s[k] == sep)
    ensures Split(s, sep) == [s[..k]] + (if k < |s| then Split(s[k + 1..], sep) else [])
    decreases k
  {
    if 0 < k {
      SplitAtFirst(s[1..], sep, k - 1);
      assert s[..k] == [s[0]] + s[1..][..k - 1];
      if k < |s| {
        assert s[1..][k..] == s[k + 1..];
      }
    } else if s != [] {
      assert s[..0] == [];
    }
  }

  lemma {:induction false} FirstSeparator(s: string, sep: char) returns (k: nat)
    ensures k <= |s| && (forall i :: 0 <= i < k ==> s[i] != sep) && (k < |s| ==> s[k] == sep)
  {
    if s == [] || s[0] == sep {
      k := 0;
    } else {
      k := FirstSeparator(s[1..], sep);
      k := k + 1;
      assert forall i :: 1 <= i < k ==> s[i] == s[1..][i - 1];
    }
  }

  /** A piece of what follows a separator is a piece of the whole. */
  lemma PieceShifts(s: string, d: nat, a: int, b: int, part: string, seps: set<char>)
    requires 0 < d <= |s| && s[d - 1] in seps && 0 <= a
    ensures IsPiece(s[d..], a, b, part, seps) <==> IsPiece(s, a + d, b + d, part, seps)
  {
    assert a <= b <= |s| - d ==> s[d..][a..b] == s[a + d..b + d];
  }

  lemma PieceUpTo(s: string, k: nat, a: int, b: int, part: string, sep: char)
    requires IsPiece(s, a, b, part, {sep}) && a <= k < |s|
    requires (forall i :: 0 <= i < k ==> s[i] != sep) && s[k] == sep
    ensures part == s[..k]
  {
    assert a == 0;
    assert b == k;
  }

  lemma FirstPiece(s: string, k: nat, sep: char)
    requires k <= |s| && (forall i :: 0 <= i < k ==> s[i] != sep) && (k < |s| ==> s[k] == sep)
    ensures IsPiece(s, 0, k, s[..k], {sep})
  {
    assert s[0..k] == s[..k];
  }

  lemma PieceBegins(s: string, a: int, b: int, part: string, seps: set<char>)
    requires IsPiece(s, a, b, part, seps)
    ensures 0 <= a <= b <= |s|
  {
  }

  /** The pieces are the one before the first separator and those after it. */
  lemma PiecesAfter(s: string, part: string, sep: char, k: nat)
    requires k < |s| && (forall i :: 0 <= i < k ==> s[i] != sep) && s[k] == sep
    ensures HasPiece(s, part, {sep}) <==> part == s[..k] || HasPiece(s[k + 1..], part, {sep})
  {
    hide IsPiece;
    FirstPiece(s, k, sep);
    if a, b :| IsPiece(s, a, b, part, {sep}) {
      if a <= k {
        PieceUpTo(s, k, a, b, part, sep);
      } else {
        PieceShifts(s, k + 1, a - k - 1, b - k - 1, part, {sep});
      }
    }
    var rest := s[k + 1..];
    if a, b :| IsPiece(rest, a, b, part, {sep}) {
      PieceBegins(rest, a, b, part, {sep});
      PieceShifts(s, k + 1, a, b, part, {sep});
    }
  }

  /** Splitting finds exactly the pieces. */
  lemma {:induction false} SplitFindsPieces(s: string, part: string, sep: char)
    ensures part in Split(s, sep) <==> HasPiece(s, part, {sep})
    decreases |s|
  {
    var k := FirstSeparator(s, sep);
    SplitAtFirst(s, sep, k);
    if k < |s| {
      hide HasPiece;
      SplitFindsPieces(s[k + 1..], part, sep);
      PiecesAfter(s, part, sep, k);
    } else {
      assert s[..k] == s;
      FirstPiece(s, k, sep);
      if a, b :| IsPiece(s, a, b, part, {sep}) {
        assert a == 0 && b == |s|;
      }
    }
  }

  const DOT: set<char> := {'.'}
  const DOT_OR_UNDERSCORE: set<char> := {'.', '_'}

  lemma {:induction false} SegmentStart(s: string, a: nat) returns (c: nat)
    requires a <= |s|
    ensures c <= a && (c == 0 || s[c - 1] == '.') && forall i :: c <= i < a ==> s[i] != '.'
  {
    if a == 0 || s[a - 1] == '.' {
      c := a;
    } else {
      c := SegmentStart(s, a - 1);
    }
  }

  lemma {:induction false} SegmentEnd(s: string, b: nat) returns (d: nat)
    requires b <= |s|
    ensures b <= d <= |s| && (d == |s| || s[d] == '.') && forall i :: b <= i < d ==> s[i] != '.'
    decreases |s| - b
  {
    if b == |s| || s[b] == '.' {
      d := b;
    } else {
      d := SegmentEnd(s, b + 1);
    }
  }

  lemma SliceOfSlice(s: string, c: nat, d: nat, a: nat, b: nat)
    requires c <= d <= |s| && a <= b <= d - c
    ensures s[c..d][a..b] == s[c + a..c + b]
  {
    var t, u := s[c..d][a..b], s[c + a..c + b];
    assert forall i :: 0 <= i < b - a ==> t[i] == u[i];
  }

  lemma PieceOfPiece(s: string, c: int, d: int, segment: string, a: int, b: int, part: string)
    requires IsPiece(s, c, d, segment, DOT) && IsPiece(segment, a, b, part, {'_'})
    ensures IsPiece(s, c + a, c + b, part, DOT_OR_UNDERSCORE)
  {
    SliceOfSlice(s, c, d, a, b);
    assert 0 < a ==> s[c..d][a - 1] == s[c + a - 1];
    assert b < |segment| ==> s[c..d][b] == s[c + b];
    forall x | x in part
      ensures x in segment
    {
      var i :| 0 <= i < |part| && part[i] == x;
      assert segment[a + i] == x;
    }
  }

  lemma PieceInSegment(s: string, a: int, b: int, part: string) returns (c: int, d: int)
    requires IsPiece(s, a, b, part, DOT_OR_UNDERSCORE)
    ensures 0 <= c <= a && b <= d <= |s|
    ensures IsPiece(s, c, d, s[c..d], DOT) && IsPiece(s[c..d], a - c, b - c, part, {'_'})
  {
    c := SegmentStart(s, a);
    d := SegmentEnd(s, b);
    var segment := s[c..d];
    forall i | c <= i < d
      ensures s[i] != '.'
    {
      if a <= i < b {
        assert part[i - a] == s[i];
        assert part[i - a] in part;
      }
    }
    SliceOfSlice(s, c, d, a - c, b - c);
    assert c < a ==> segment[a - c - 1] == s[a - 1];
    assert b < d ==> segment[b - c] == s[b];
  }

  /** The parts of the segments are what stands between dots and underscores. */
  lemma PartsArePieces(s: string, part: string)
    ensures (exists segment :: segment in Split(s, '.') && part in Split(segment, '_')) <==>
            HasPiece(s, part, DOT_OR_UNDERSCORE)
  {
    hide IsPiece, Split;
    if segment :| segment in Split(s, '.') && part in Split(segment, '_') {
      SplitFindsPieces(s, segment, '.');
      SplitFindsPieces(segment, part, '_');
      var c, d :| IsPiece(s, c, d, segment, DOT);
      var a, b :| IsPiece(segment, a, b, part, {'_'});
      PieceOfPiece(s, c, d, segment, a, b, part);
    }
    if a, b :| IsPiece(s, a, b, part, DOT_OR_UNDERSCORE) {
      var c, d := PieceInSegment(s, a, b, part);
      SplitFindsPieces(s, s[c..d], '.');
      SplitFindsPieces(s[c..d], part, '_');
    }
  }

  /** A name is a command when a token stands between its dots, or between its dots and underscores. */
  lemma CommandsHaveTokens(s: string)
    ensures IsCommand(s) <==>
            exists t :: t in COMMAND_TOKENS && (HasPiece(s, t, DOT) || HasPiece(s, t, DOT_OR_UNDERSCORE))
  {
    hide Split, HasPiece;
    forall t: string
      ensures HasPiece(s, t, DOT) <==> exists i :: 0 <= i < |Split(s, '.')| && Split(s, '.')[i] == t
      ensures HasPiece(s, t, DOT_OR_UNDERSCORE) <==>
              exists i, j :: 0 <= i < |Split(s, '.')| && 0 <= j < |Split(Split(s, '.')[i], '_')|
                             && Split(Split(s, '.')[i], '_')[j] == t
    {
      SplitFindsPieces(s, t, '.');
      PartsArePieces(s, t);
    }
  }

  predicate IsOrderWord(w: string) {
    w == "command" || w == "delete" || w == "do" || w == "execute" || w == "now" || w == "run" || w == "send"
  }

  predicate IsOrderPhrase(w: string) {
    w == "publish_this" || w == "update_every" || w == "update_every_school"
  }

  /** One of seven words between dots and underscores, or one of three phrases between dots. */
  ghost predicate GivesOrder(s: string) {
    exists w :: (IsOrderWord(w) && HasPiece(s, w, DOT_OR_UNDERSCORE)) || (IsOrderPhrase(w) && HasPiece(s, w, DOT))
  }

  lemma PartOfSegment(s: string, segment: string, a: int, b: int, part: string)
    requires HasPiece(s, segment, DOT) && IsPiece(segment, a, b, part, {'_'})
    ensures HasPiece(s, part, DOT_OR_UNDERSCORE)
  {
    var c, d :| IsPiece(s, c, d, segment, DOT);
    PieceOfPiece(s, c, d, segment, a, b, part);
  }

  lemma WordsHaveNoUnderscore(w: string)
    requires IsOrderWord(w)
    ensures IsPiece(w, 0, |w|, w, {'_'}) && w in COMMAND_TOKENS
  {
    assert w[0..|w|] == w;
  }

  lemma OtherTokens(t: string)
    requires t in COMMAND_TOKENS && !IsOrderWord(t)
    ensures '_' in t
    ensures IsOrderPhrase(t) || IsPiece(t, 0, 6, "delete", {'_'}) || IsPiece(t, 0, 4, "send", {'_'})
  {
    if t == "delete_everything" {
      assert t[0..6] == "delete" && t[6] == '_';
    } else if t == "send_message" {
      assert t[0..4] == "send" && t[4] == '_';
    } else if t == "publish_this" {
      assert t[7] == '_';
    } else {
      assert t[6] == '_';
    }
  }

  /** Two of the five tokens with an underscore begin with a word that is one already. */
  lemma CommandsGiveOrders(s: string)
    ensures IsCommand(s) <==> GivesOrder(s)
  {
    hide IsCommand, IsPiece, HasPiece;
    CommandsHaveTokens(s);
    if t :| t in COMMAND_TOKENS && (HasPiece(s, t, DOT) || HasPiece(s, t, DOT_OR_UNDERSCORE)) {
      TokenGivesOrder(s, t);
    }
    if GivesOrder(s) {
      var w :| (IsOrderWord(w) && HasPiece(s, w, DOT_OR_UNDERSCORE)) || (IsOrderPhrase(w) && HasPiece(s, w, DOT));
      assert w in COMMAND_TOKENS;
    }
  }

  lemma TokenGivesOrder(s: string, t: string)
    requires t in COMMAND_TOKENS && (HasPiece(s, t, DOT) || HasPiece(s, t, DOT_OR_UNDERSCORE))
    ensures GivesOrder(s)
  {
    hide IsPiece, IsOrderPhrase;
    if IsOrderWord(t) {
      WordsHaveNoUnderscore(t);
      if HasPiece(s, t, DOT) {
        PartOfSegment(s, t, 0, |t|, t);
      }
    } else {
      OtherTokens(t);
      hide COMMAND_TOKENS;
      if HasPiece(s, t, DOT) {
        if IsPiece(t, 0, 6, "delete", {'_'}) {
          PartOfSegment(s, t, 0, 6, "delete");
          assert IsOrderWord("delete");
        } else if IsPiece(t, 0, 4, "send", {'_'}) {
          PartOfSegment(s, t, 0, 4, "send");
          assert IsOrderWord("send");
        }
      } else {
        var a, b :| IsPiece(s, a, b, t, DOT_OR_UNDERSCORE);
        NoPieceHoldsSeparators(s, a, b, t);
      }
    }
  }

  lemma NoPieceHoldsSeparators(s: string, a: int, b: int, part: string)
    requires IsPiece(s, a, b, part, DOT_OR_UNDERSCORE)
    ensures '_' !in part
  {
  }

  /** The clean form is what is left between white space, with each capital replaced by its small letter. */
  lemma CleanMeans(s: string)
    ensures |Clean(s)| == |Strip(s)|
    ensures forall i :: 0 <= i < |Strip(s)| ==>
              if 'A' <= Strip(s)[i] <= 'Z' then
                'a' <= Clean(s)[i] <= 'z' && Clean(s)[i] as int - 'a' as int == Strip(s)[i] as int - 'A' as int
              else Clean(s)[i] == Strip(s)[i]
  {
    hide Strip;
    forall i | 0 <= i < |Strip(s)|
      ensures Clean(s)[i] == LowerChar(Strip(s)[i])
    {
    }
  }

  /**
   A namespace is accepted exactly when its clean form begins with a letter, has a dot and a
   letter after each, otherwise only small letters, digits and underscores, and gives no order.
   */
  lemma AcceptedNamespaces(t: string)
    ensures ValidateNamespace(t) ==
            if IsShaped(Clean(t)) && '.' in Clean(t) && !GivesOrder(Clean(t)) then Some(Clean(t)) else None
  {
    hide Clean, IsDotted, IsCommand, IsShaped, GivesOrder;
    DottedIsShaped(Clean(t));
    CommandsGiveOrders(Clean(t));
  }

  predicate IsWholeNumber(d: string) {
    d != "" && '1' <= d[0] <= '9' && forall i :: 0 <= i < |d| ==> '0' <= d[i] <= '9'
  }

  /** A versioned name is accepted exactly when its clean form is such a namespace, `.v` and a whole number. */
  lemma AcceptedVersionedNames(name: string)
    ensures NormalizeName(name).Some? <==>
            exists t, d :: Clean(name) == t + ".v" + d && IsShaped(t) && '.' in t && !GivesOrder(t) && IsWholeNumber(d)
  {
    hide Clean, NormalizeName, IsDotted, IsCommand, IsShaped, GivesOrder;
    AcceptedNames(name);
    forall t: string, d: string
      ensures IsNamespace(t) <==> IsShaped(t) && '.' in t && !GivesOrder(t)
      ensures IsNumeral(d) <==> IsWholeNumber(d)
    {
      DottedIsShaped(t);
      CommandsGiveOrders(t);
    }
  }
}
