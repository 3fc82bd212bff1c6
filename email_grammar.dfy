/** The e-mail address grammar that the login form's validator tests against
    (a hand-written simplification of the addr-spec of RFC 5322, section 3.4.1).

    The regular expression is modelled as written, alternative by alternative:

      local  ::= atom ( "." atom )*        atom  ::= [^<>()\[\]\\.,;:\s@"]+
               | '"' .+ '"'
      domain ::= "[" d "." d "." d "." d "]"   d ::= [0-9]{1,3}
               | ( label "." )+ tld          label ::= [a-zA-Z\-0-9]+,  tld ::= [a-zA-Z]{2,}
      email  ::= local "@" domain           (anchored at both ends)

    Beside it stands an independent reference description built on splitting a
    string at its dots (`Split`), and lemmas proving the two agree. */
module EmailGrammar {

  // ---------------------------------------------------------------------------
  // Character classes of the regular expression
  // ---------------------------------------------------------------------------

  /** ECMAScript LineTerminator: the characters `.` does not match. */
  predicate IsLineTerminator(c: char) {
    c == '\n' || c == '\r' || c == '\U{2028}' || c == '\U{2029}'
  }

  /** ECMAScript `\s`: WhiteSpace (tab, vertical tab, form feed, the
      space separators, the byte order mark) and LineTerminator. */
  predicate IsWhitespace(c: char) {
    || IsLineTerminator(c)
    || c == '\t' || c == '\U{B}' || c == '\U{C}' || c == ' '
    || c == '\U{A0}' || c == '\U{1680}' || ('\U{2000}' <= c <= '\U{200A}')
    || c == '\U{202F}' || c == '\U{205F}' || c == '\U{3000}' || c == '\U{FEFF}'
  }

  /** `[^<>()\[\]\\.,;:\s@"]`: a character of an unquoted local-part atom. */
  predicate IsAtomChar(c: char) {
    c !in "<>()[]\\.,;:@\"" && !IsWhitespace(c)
  }

  predicate IsDigit(c: char) { '0' <= c <= '9' }

  predicate IsAsciiLetter(c: char) { 'a' <= c <= 'z' || 'A' <= c <= 'Z' }

  /** `[a-zA-Z\-0-9]`: a character of a domain label. */
  predicate IsLabelChar(c: char) { IsAsciiLetter(c) || IsDigit(c) || c == '-' }

  // ---------------------------------------------------------------------------
  // The grammar as written
  // ---------------------------------------------------------------------------

  /** `C+`: one or more characters of the class `ok`. */
  predicate Run(s: string, ok: char -> bool) {
    |s| > 0 && forall i :: 0 <= i < |s| ==> ok(s[i])
  }

  /** `C+ ( \. C+ )*` */
  predicate DotRuns(s: string, ok: char -> bool)
    decreases |s|
  {
    || Run(s, ok)
    || exists i :: 0 < i < |s| && s[i] == '.' && Run(s[..i], ok) && DotRuns(s[i + 1..], ok)
  }

  /** `( C+ \. )+` */
  predicate DotTerminatedRuns(s: string, ok: char -> bool)
    decreases |s|
  {
    exists i :: 0 < i < |s| && s[i] == '.' && Run(s[..i], ok) &&
      (i + 1 == |s| || DotTerminatedRuns(s[i + 1..], ok))
  }

  /** `".+"`: a double quote, one or more characters other than line
      terminators (quotes and `@` included), and a double quote. */
  predicate QuotedString(s: string) {
    && |s| >= 3 && s[0] == '"' && s[|s| - 1] == '"'
    && forall i :: 0 < i < |s| - 1 ==> !IsLineTerminator(s[i])
  }

  predicate LocalPart(s: string) {
    DotRuns(s, IsAtomChar) || QuotedString(s)
  }

  /** `[0-9]{1,3}` */
  predicate DigitGroup(s: string) {
    1 <= |s| <= 3 && forall i :: 0 <= i < |s| ==> IsDigit(s[i])
  }

  /** `n` digit groups separated by single dots. */
  predicate DigitGroups(s: string, n: nat)
    decreases n
  {
    if n <= 1 then n == 1 && DigitGroup(s)
    else exists i :: 0 < i < |s| && s[i] == '.' && DigitGroup(s[..i]) && DigitGroups(s[i + 1..], n - 1)
  }

  /** `\[[0-9]{1,3}\.[0-9]{1,3}\.[0-9]{1,3}\.[0-9]{1,3}\]` */
  predicate AddressLiteral(s: string) {
    |s| >= 2 && s[0] == '[' && s[|s| - 1] == ']' && DigitGroups(s[1..|s| - 1], 4)
  }

  /** `[a-zA-Z]{2,}` */
  predicate TopLevelLabel(s: string) {
    |s| >= 2 && forall i :: 0 <= i < |s| ==> IsAsciiLetter(s[i])
  }

  /** `([a-zA-Z\-0-9]+\.)+[a-zA-Z]{2,}` */
  predicate HostName(s: string) {
    exists j :: 0 < j < |s| && DotTerminatedRuns(s[..j], IsLabelChar) && TopLevelLabel(s[j..])
  }

  predicate Domain(s: string) {
    AddressLiteral(s) || HostName(s)
  }

  /** The validator's test: the whole string is local part, `@`, domain.
      A quoted local part may itself contain `@`, so the split is not unique. */
  predicate IsEmail(s: string) {
    exists i :: 0 <= i < |s| && s[i] == '@' && LocalPart(s[..i]) && Domain(s[i + 1..])
  }

  // ---------------------------------------------------------------------------
  // Reference description: splitting at dots
  // ---------------------------------------------------------------------------

  /** Position of the first `c` in `s`, or `|s|` when there is none. */
  function IndexOf(s: string, c: char): (i: nat)
    ensures i <= |s|
    ensures i < |s| ==> s[i] == c
    ensures forall k :: 0 <= k < i ==> s[k] != c
    decreases |s|
  {
    if s == [] then 0
    else if s[0] == c then 0
    else 1 + IndexOf(s[1..], c)
  }

  /** The pieces of `s` between its dots (`"a..b"` gives `["a", "", "b"]`). */
  function Split(s: string): (parts: seq<string>)
    ensures |parts| >= 1
    decreases |s|
  {
    var i := IndexOf(s, '.');
    if i == |s| then [s] else [s[..i]] + Split(s[i + 1..])
  }

  /** The pieces put back together with a dot between each two. */
  function Join(parts: seq<string>): string
    requires |parts| >= 1
  {
    if |parts| == 1 then parts[0] else parts[0] + "." + Join(parts[1..])
  }

  predicate AllRuns(parts: seq<string>, ok: char -> bool) {
    forall k :: 0 <= k < |parts| ==> Run(parts[k], ok)
  }

  predicate AllDigitGroups(parts: seq<string>) {
    forall k :: 0 <= k < |parts| ==> DigitGroup(parts[k])
  }

  /** Local part: dot-separated non-empty atoms, or a quoted string. */
  predicate LocalSpec(s: string) {
    AllRuns(Split(s), IsAtomChar) || QuotedString(s)
  }

  /** Domain: `[` four 1-3 digit groups `]`, or dot-separated non-empty labels
      followed by a dot and a top-level label of at least two letters. */
  predicate DomainSpec(s: string) {
    AddressLiteralSpec(s) || HostNameSpec(s)
  }

  predicate AddressLiteralSpec(s: string) {
    && |s| >= 2 && s[0] == '[' && s[|s| - 1] == ']'
    && |Split(s[1..|s| - 1])| == 4 && AllDigitGroups(Split(s[1..|s| - 1]))
  }

  /** The top-level label starts at `j`, just after the last dot. */
  predicate HostNameSpec(s: string) {
    exists j :: 1 < j < |s| && s[j - 1] == '.' && AllRuns(Split(s[..j - 1]), IsLabelChar) && TopLevelLabel(s[j..])
  }

  predicate EmailSpec(s: string) {
    exists i :: 0 <= i < |s| && s[i] == '@' && LocalSpec(s[..i]) && DomainSpec(s[i + 1..])
  }

  // ---------------------------------------------------------------------------
  // Lemmas
  // ---------------------------------------------------------------------------

  /** Splitting and joining are inverse. */
  lemma {:induction false} JoinSplit(s: string)
    ensures Join(Split(s)) == s
    decreases |s|
  {
    var i := IndexOf(s, '.');
    if i < |s| {
      var rest := Split(s[i + 1..]);
      JoinSplit(s[i + 1..]);
      assert Split(s) == [s[..i]] + rest;
      assert ([s[..i]] + rest)[1..] == rest;
      assert Join(Split(s)) == s[..i] + "." + Join(rest);
      assert s == s[..i] + "." + s[i + 1..];
    }
  }

  /** No piece of a split holds a dot. */
  lemma {:induction false} SplitPartsHaveNoDot(s: string, k: nat, j: nat)
    requires k < |Split(s)| && j < |Split(s)[k]|
    ensures Split(s)[k][j] != '.'
    decreases |s|
  {
    var i := IndexOf(s, '.');
    if i < |s| {
      var rest := Split(s[i + 1..]);
      assert Split(s) == [s[..i]] + rest;
      if k > 0 {
        assert Split(s)[k] == rest[k - 1];
        SplitPartsHaveNoDot(s[i + 1..], k - 1, j);
      } else {
        assert Split(s)[0][j] == s[j];
      }
    }
  }

  /** When `s[i]` is the first `c`, `IndexOf` finds it. */
  lemma IndexOfAt(s: string, c: char, i: nat)
    requires i < |s| && s[i] == c
    requires forall k :: 0 <= k < i ==> s[k] != c
    ensures IndexOf(s, c) == i
  {
  }

  /** A string with no dot splits into itself. */
  lemma SplitNoDot(s: string)
    requires IndexOf(s, '.') == |s|
    ensures Split(s) == [s]
  {
  }

  /** How `Split` proceeds at the first dot. */
  lemma SplitAtFirstDot(s: string, i: nat)
    requires i < |s| && s[i] == '.'
    requires forall k :: 0 <= k < i ==> s[k] != '.'
    ensures Split(s) == [s[..i]] + Split(s[i + 1..])
  {
    IndexOfAt(s, '.', i);
  }

  /** `C+ ( \. C+ )*` matches exactly the strings whose pieces between dots
      are all non-empty runs of `C`. */
  lemma DotRunsIff(s: string, ok: char -> bool)
    requires !ok('.')
    ensures DotRuns(s, ok) <==> AllRuns(Split(s), ok)
  {
    if DotRuns(s, ok) {
      DotRunsSplit(s, ok);
    }
    if AllRuns(Split(s), ok) {
      DotRunsOfSplit(s, ok);
    }
  }

  /** A list of pieces is all runs exactly when its head and its tail are. */
  lemma AllRunsCons(head: string, rest: seq<string>, ok: char -> bool)
    ensures AllRuns([head] + rest, ok) <==> Run(head, ok) && AllRuns(rest, ok)
  {
    if Run(head, ok) && AllRuns(rest, ok) {
      forall m | 0 <= m < |[head] + rest| ensures Run(([head] + rest)[m], ok) {
        if m > 0 { assert ([head] + rest)[m] == rest[m - 1]; }
      }
    }
    if AllRuns([head] + rest, ok) {
      assert ([head] + rest)[0] == head;
      forall m | 0 <= m < |rest| ensures Run(rest[m], ok) {
        assert ([head] + rest)[m + 1] == rest[m];
      }
    }
  }

  /** A run of a class without the dot holds no dot. */
  lemma RunHasNoDot(s: string, ok: char -> bool, k: nat)
    requires !ok('.') && k <= |s| && Run(s[..k], ok)
    ensures forall j :: 0 <= j < k ==> s[j] != '.'
    ensures k == |s| ==> IndexOf(s, '.') == |s|
  {
    assert forall j :: 0 <= j < k ==> s[..k][j] == s[j];
  }

  /** `C+ ( \. C+ )*` splits into runs of `C`. */
  lemma {:induction false} DotRunsSplit(s: string, ok: char -> bool)
    requires !ok('.') && DotRuns(s, ok)
    ensures AllRuns(Split(s), ok)
    decreases |s|
  {
    if Run(s, ok) {
      RunHasNoDot(s, ok, |s|);
      SplitNoDot(s);
      assert Split(s)[0] == s;
    } else {
      var k :| 0 < k < |s| && s[k] == '.' && Run(s[..k], ok) && DotRuns(s[k + 1..], ok);
      RunHasNoDot(s, ok, k);
      SplitAtFirstDot(s, k);
      DotRunsSplit(s[k + 1..], ok);
      AllRunsCons(s[..k], Split(s[k + 1..]), ok);
    }
  }

  /** A string splitting into runs of `C` is a `C+ ( \. C+ )*`. */
  lemma {:induction false} DotRunsOfSplit(s: string, ok: char -> bool)
    requires AllRuns(Split(s), ok)
    ensures DotRuns(s, ok)
    decreases |s|
  {
    var i := IndexOf(s, '.');
    if i == |s| {
      SplitNoDot(s);
      assert Split(s)[0] == s;
    } else {
      SplitAtFirstDot(s, i);
      AllRunsCons(s[..i], Split(s[i + 1..]), ok);
      DotRunsOfSplit(s[i + 1..], ok);
      assert 0 < i < |s| && s[i] == '.' && Run(s[..i], ok) && DotRuns(s[i + 1..], ok);
    }
  }

  /** Every `( C+ \. )+` is a dot-terminated `C+ ( \. C+ )*`. */
  lemma {:induction false} DotTerminatedRunsShape(s: string, ok: char -> bool)
    requires DotTerminatedRuns(s, ok)
    ensures |s| >= 2 && s[|s| - 1] == '.' && DotRuns(s[..|s| - 1], ok)
    decreases |s|
  {
    var i :| 0 < i < |s| && s[i] == '.' && Run(s[..i], ok) &&
      (i + 1 == |s| || DotTerminatedRuns(s[i + 1..], ok));
    var q := s[..|s| - 1];
    if i + 1 == |s| {
      assert q == s[..i];
    } else {
      var t := s[i + 1..];
      assert s[|s| - 1] == '.' && DotRuns(q[i + 1..], ok) by {
        DotTerminatedRunsShape(t, ok);
        assert t[..|t| - 1] == q[i + 1..];
      }
      assert Run(q[..i], ok) by {
        assert q[..i] == s[..i];
      }
      DotRunsStep(q, i, ok);
    }
  }

  /** One `C+` and a dot in front of a further `C+ ( \. C+ )*`. */
  lemma DotRunsStep(s: string, i: nat, ok: char -> bool)
    requires 0 < i < |s| && s[i] == '.' && Run(s[..i], ok) && DotRuns(s[i + 1..], ok)
    ensures DotRuns(s, ok)
  {
  }

  /** `C+ ( \. C+ )*` followed by a dot matches `( C+ \. )+`. */
  lemma {:induction false} DotRunsThenDot(q: string, ok: char -> bool)
    requires DotRuns(q, ok)
    ensures DotTerminatedRuns(q + ".", ok)
    decreases |q|
  {
    var s := q + ".";
    if Run(q, ok) {
      assert s[..|q|] == q;
      DotTerminatedRunsStep(s, |q|, ok);
    } else {
      var i :| 0 < i < |q| && q[i] == '.' && Run(q[..i], ok) && DotRuns(q[i + 1..], ok);
      assert DotTerminatedRuns(s[i + 1..], ok) by {
        DotRunsThenDot(q[i + 1..], ok);
        assert s[i + 1..] == q[i + 1..] + ".";
      }
      assert Run(s[..i], ok) by {
        assert s[..i] == q[..i];
      }
      DotTerminatedRunsStep(s, i, ok);
    }
  }

  /** One `C+ \.` in front of the end or of a further `( C+ \. )+`. */
  lemma DotTerminatedRunsStep(s: string, i: nat, ok: char -> bool)
    requires 0 < i < |s| && s[i] == '.' && Run(s[..i], ok)
    requires i + 1 == |s| || DotTerminatedRuns(s[i + 1..], ok)
    ensures DotTerminatedRuns(s, ok)
  {
  }

  /** `n` dot-separated digit groups split into exactly `n` pieces of 1 to 3 digits. */
  lemma {:induction false} DigitGroupsSplit(s: string, n: nat)
    ensures DigitGroups(s, n) ==> |Split(s)| == n && AllDigitGroups(Split(s))
    decreases n
  {
    if n == 1 && DigitGroups(s, n) {
      NoDotInDigitGroup(s, |s|);
      SplitNoDot(s);
    } else if n > 1 && DigitGroups(s, n) {
      var k :| 0 < k < |s| && s[k] == '.' && DigitGroup(s[..k]) && DigitGroups(s[k + 1..], n - 1);
      NoDotInDigitGroup(s, k);
      SplitAtFirstDot(s, k);
      DigitGroupsSplit(s[k + 1..], n - 1);
      AllDigitGroupsCons(s[..k], Split(s[k + 1..]));
    }
  }

  /** A digit group holds no dot. */
  lemma NoDotInDigitGroup(s: string, k: nat)
    requires k <= |s| && DigitGroup(s[..k])
    ensures forall j :: 0 <= j < k ==> s[j] != '.'
    ensures k == |s| ==> IndexOf(s, '.') == |s|
  {
    assert forall j :: 0 <= j < k ==> s[..k][j] == s[j];
  }

  /** A list of pieces is all digit groups exactly when its head and its
      tail are. */
  lemma AllDigitGroupsCons(head: string, rest: seq<string>)
    ensures AllDigitGroups([head] + rest) <==> DigitGroup(head) && AllDigitGroups(rest)
  {
    if DigitGroup(head) && AllDigitGroups(rest) {
      forall m | 0 <= m < |[head] + rest| ensures DigitGroup(([head] + rest)[m]) {
        if m > 0 { assert ([head] + rest)[m] == rest[m - 1]; }
      }
    }
    if AllDigitGroups([head] + rest) {
      assert ([head] + rest)[0] == head;
      forall m | 0 <= m < |rest| ensures DigitGroup(rest[m]) {
        assert ([head] + rest)[m + 1] == rest[m];
      }
    }
  }

  /** A string that splits into `n` pieces of 1 to 3 digits is `n` digit groups. */
  lemma DigitGroupsOfSplit(s: string, n: nat)
    requires |Split(s)| == n && AllDigitGroups(Split(s))
    ensures DigitGroups(s, n)
  {
    JoinSplit(s);
    DigitGroupsOfJoin(Split(s), n);
  }

  /** `n` digit groups joined with dots form `n` digit groups. */
  lemma {:induction false} DigitGroupsOfJoin(parts: seq<string>, n: nat)
    requires n == |parts| >= 1 && AllDigitGroups(parts)
    ensures DigitGroups(Join(parts), n)
    decreases n
  {
    if n == 1 {
      assert Join(parts) == parts[0];
      assert DigitGroup(parts[0]);
    } else {
      var head, rest := parts[0], parts[1..];
      assert DigitGroup(head) && AllDigitGroups(rest) by {
        assert parts == [head] + rest;
        AllDigitGroupsCons(head, rest);
      }
      DigitGroupsOfJoin(rest, n - 1);
      assert Join(parts) == head + "." + Join(rest);
      DigitGroupsStep(head, Join(rest), n);
    }
  }

  /** One digit group and a dot in front of `k - 1` digit groups. */
  lemma DigitGroupsStep(head: string, tail: string, k: nat)
    requires k >= 2 && DigitGroup(head) && DigitGroups(tail, k - 1)
    ensures DigitGroups(head + "." + tail, k)
  {
    var s := head + "." + tail;
    assert s[..|head|] == head && s[|head| + 1..] == tail;
    assert 0 < |head| < |s| && s[|head|] == '.';
  }

  /** The local part as written agrees with the reference description. */
  lemma LocalPartIff(s: string)
    ensures LocalPart(s) <==> LocalSpec(s)
  {
    DotRunsIff(s, IsAtomChar);
  }

  /** The address literal as written agrees with the reference description. */
  lemma AddressLiteralIff(s: string)
    ensures AddressLiteral(s) <==> AddressLiteralSpec(s)
  {
    if AddressLiteral(s) {
      DigitGroupsSplit(s[1..|s| - 1], 4);
    }
    if AddressLiteralSpec(s) {
      DigitGroupsOfSplit(s[1..|s| - 1], 4);
    }
  }

  /** The host name as written agrees with the reference description. */
  lemma HostNameIff(s: string)
    ensures HostName(s) <==> HostNameSpec(s)
  {
    if HostName(s) {
      HostNameSpecOf(s);
    }
    if HostNameSpec(s) {
      HostNameOfSpec(s);
    }
  }

  /** Host name as written, then as described. */
  lemma HostNameSpecOf(s: string)
    requires HostName(s)
    ensures HostNameSpec(s)
  {
    var j :| 0 < j < |s| && DotTerminatedRuns(s[..j], IsLabelChar) && TopLevelLabel(s[j..]);
    assert 1 < j && s[j - 1] == '.' && DotRuns(s[..j - 1], IsLabelChar) by {
      DotTerminatedRunsShape(s[..j], IsLabelChar);
      assert s[..j][..j - 1] == s[..j - 1];
    }
    assert AllRuns(Split(s[..j - 1]), IsLabelChar) by {
      DotRunsIff(s[..j - 1], IsLabelChar);
    }
    assert 1 < j < |s| && s[j - 1] == '.' && AllRuns(Split(s[..j - 1]), IsLabelChar) && TopLevelLabel(s[j..]);
  }

  /** Host name as described, then as written. */
  lemma HostNameOfSpec(s: string)
    requires HostNameSpec(s)
    ensures HostName(s)
  {
    var j :| 1 < j < |s| && s[j - 1] == '.' && AllRuns(Split(s[..j - 1]), IsLabelChar) && TopLevelLabel(s[j..]);
    HostNameOfSpecAt(s, j);
  }

  /** The same, with the last dot of the described host name at `j - 1`. */
  lemma HostNameOfSpecAt(s: string, j: nat)
    requires 1 < j < |s| && s[j - 1] == '.' && AllRuns(Split(s[..j - 1]), IsLabelChar) && TopLevelLabel(s[j..])
    ensures HostName(s)
  {
    assert DotRuns(s[..j - 1], IsLabelChar) by {
      DotRunsIff(s[..j - 1], IsLabelChar);
    }
    assert DotTerminatedRuns(s[..j], IsLabelChar) by {
      DotRunsThenDot(s[..j - 1], IsLabelChar);
      assert s[..j - 1] + "." == s[..j];
    }
    assert 0 < j < |s| && DotTerminatedRuns(s[..j], IsLabelChar) && TopLevelLabel(s[j..]);
  }

  /** The domain as written agrees with the reference description. */
  lemma DomainIff(s: string)
    ensures Domain(s) <==> DomainSpec(s)
  {
    AddressLiteralIff(s);
    HostNameIff(s);
  }

  /** The validator's grammar accepts exactly the strings that have an `@`
      splitting them into a local part and a domain as described by the
      reference: both directions. */
  lemma EmailIff(s: string)
    ensures IsEmail(s) <==> EmailSpec(s)
  {
    if IsEmail(s) {
      var i :| 0 <= i < |s| && s[i] == '@' && LocalPart(s[..i]) && Domain(s[i + 1..]);
      LocalPartIff(s[..i]);
      DomainIff(s[i + 1..]);
    }
    if EmailSpec(s) {
      var i :| 0 <= i < |s| && s[i] == '@' && LocalSpec(s[..i]) && DomainSpec(s[i + 1..]);
      LocalPartIff(s[..i]);
      DomainIff(s[i + 1..]);
    }
  }

  /** An unquoted local part never has a doubled dot. */
  lemma {:induction false} DotRunsNoDoubledDot(s: string, ok: char -> bool, k: nat)
    requires !ok('.') && DotRuns(s, ok)
    requires k + 1 < |s|
    ensures !(s[k] == '.' && s[k + 1] == '.')
    decreases |s|
  {
    if Run(s, ok) {
      assert ok(s[k]);
    } else {
      var i :| 0 < i < |s| && s[i] == '.' && Run(s[..i], ok) && DotRuns(s[i + 1..], ok);
      var t := s[i + 1..];
      if k > i {
        assert t[k - i - 1] == s[k] && t[k - i] == s[k + 1];
        DotRunsNoDoubledDot(t, ok, k - i - 1);
      } else if k == i {
        DotRunsEnds(t, ok);
        assert t[0] == s[k + 1];
      } else {
        assert s[..i][k] == s[k];
        assert ok(s[k]);
      }
    }
  }

  /** An unquoted local part neither starts nor ends with a dot. */
  lemma {:induction false} DotRunsEnds(s: string, ok: char -> bool)
    requires !ok('.') && DotRuns(s, ok)
    ensures |s| > 0 && s[0] != '.' && s[|s| - 1] != '.'
    decreases |s|
  {
    if !Run(s, ok) {
      var i :| 0 < i < |s| && s[i] == '.' && Run(s[..i], ok) && DotRuns(s[i + 1..], ok);
      DotRunsEnds(s[i + 1..], ok);
      assert s[..i][0] == s[0];
    }
  }

  // ---------------------------------------------------------------------------
  // Building accepted addresses, and examples
  // ---------------------------------------------------------------------------

  /** A local part, `@` and a domain make an accepted address. */
  lemma EmailOfParts(l: string, d: string)
    requires LocalPart(l) && Domain(d)
    ensures IsEmail(l + "@" + d)
  {
    var s := l + "@" + d;
    assert s[..|l|] == l && s[|l| + 1..] == d;
    assert s[|l|] == '@';
  }

  /** `C+` `.` `C+ ( \. C+ )*` is again a `C+ ( \. C+ )*`. */
  lemma DotRunsCons(a: string, b: string, ok: char -> bool)
    requires Run(a, ok) && DotRuns(b, ok)
    ensures DotRuns(a + "." + b, ok)
  {
    var s := a + "." + b;
    assert s[..|a|] == a && s[|a| + 1..] == b;
    assert s[|a|] == '.';
  }

  /** `C+` followed by a dot is a `( C+ \. )+`. */
  lemma DotTerminatedRunsOne(a: string, ok: char -> bool)
    requires Run(a, ok)
    ensures DotTerminatedRuns(a + ".", ok)
  {
    var s := a + ".";
    assert s[..|a|] == a;
  }

  /** Dot-terminated labels followed by a top-level label form a host name. */
  lemma HostNameOfParts(p: string, t: string)
    requires DotTerminatedRuns(p, IsLabelChar) && TopLevelLabel(t)
    ensures HostName(p + t)
  {
    var s := p + t;
    assert s[..|p|] == p && s[|p|..] == t;
  }

  /** Every address of the form `x.y@z.t`, with atoms `x`, `y`, a label `z`
      and a top-level label `t` of two or more letters, is accepted. */
  lemma AcceptsDottedAddress(x: string, y: string, z: string, t: string)
    requires Run(x, IsAtomChar) && Run(y, IsAtomChar) && Run(z, IsLabelChar) && TopLevelLabel(t)
    ensures IsEmail((x + "." + y) + "@" + (z + "." + t))
  {
    DotRunsCons(x, y, IsAtomChar);
    DotTerminatedRunsOne(z, IsLabelChar);
    HostNameOfParts(z + ".", t);
    EmailOfParts(x + "." + y, z + "." + t);
  }

  /** A domain without a dot is rejected: `a@b`. */
  lemma RejectsDotlessDomain()
    ensures !IsEmail("a@b")
  {
  }

  /** A doubled dot in the local part is rejected: `a..b@c.de`. */
  lemma RejectsDoubledDot()
    ensures !IsEmail("a..b@c.de")
  {
    var s := "a..b@c.de";
    var l := s[..4];
    assert l == "a..b";
    if DotRuns(l, IsAtomChar) {
      DotRunsNoDoubledDot(l, IsAtomChar, 1);
    }
    assert !LocalPart(l);
    assert forall j :: 0 <= j < |s| && j != 4 ==> s[j] != '@';
  }

  /** A quoted local part may contain any characters but line terminators,
      `@` and `"` included: every `"q"@z.t` is accepted. */
  lemma AcceptsQuotedLocalPart(q: string, z: string, t: string)
    requires |q| >= 1 && forall i :: 0 <= i < |q| ==> !IsLineTerminator(q[i])
    requires Run(z, IsLabelChar) && TopLevelLabel(t)
    ensures IsEmail(("\"" + q + "\"") + "@" + (z + "." + t))
  {
    var l := "\"" + q + "\"";
    assert forall i :: 0 < i < |l| - 1 ==> l[i] == q[i - 1];
    assert QuotedString(l);
    DotTerminatedRunsOne(z, IsLabelChar);
    HostNameOfParts(z + ".", t);
    EmailOfParts(l, z + "." + t);
  }
}
