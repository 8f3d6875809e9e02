/** The email format check of the signup endpoint: the anchored pattern
    local "@" domain "." tail, written as a greedy recogniser and proved equal
    to a declarative description of the language it accepts. */
module EmailFormat {

  /** The three bracket classes of the pattern. */
  datatype CharClass = LocalPart | DomainLabel | Tail

  predicate IsAsciiAlnum(c: char) {
    'a' <= c <= 'z' || 'A' <= c <= 'Z' || '0' <= c <= '9'
  }

  /** [a-zA-Z0-9_.+-], [a-zA-Z0-9-] and [a-zA-Z0-9-.] respectively. */
  predicate InClass(c: char, k: CharClass) {
    match k
    case LocalPart => IsAsciiAlnum(c) || c == '_' || c == '.' || c == '+' || c == '-'
    case DomainLabel => IsAsciiAlnum(c) || c == '-'
    case Tail => IsAsciiAlnum(c) || c == '-' || c == '.'
  }

  ghost predicate AllIn(s: string, k: CharClass) {
    forall i :: 0 <= i < |s| ==> InClass(s[i], k)
  }

  /** What `[...]+` matches: a non-empty string over class k. */
  ghost predicate IsRun(s: string, k: CharClass) {
    |s| > 0 && AllIn(s, k)
  }

  /** The language of the pattern, stated declaratively. */
  ghost predicate EmailForm(s: string) {
    exists l, d, t :: EmailParts(s, l, d, t)
  }

  /** Length of the longest prefix of s whose characters are all in class k. */
  function RunLength(s: string, k: CharClass): (n: nat)
    ensures n <= |s|
    ensures forall i :: 0 <= i < n ==> InClass(s[i], k)
    ensures n == |s| || !InClass(s[n], k)
  {
    if s == [] || !InClass(s[0], k) then 0 else 1 + RunLength(s[1..], k)
  }

  /** The recogniser: a maximal local run, '@', a maximal domain run, '.', and a
      tail that runs to the end of the string. Greedy runs suffice because '@'
      is in no class and '.' is not in the domain class, so it accepts exactly
      the declarative language. */
  function MatchesPattern(s: string): (r: bool)
    ensures r <==> EmailForm(s)
  {
    var i := RunLength(s, LocalPart);
    if i == 0 || i == |s| || s[i] != '@' then
      MatchesPatternComplete(s);
      false
    else
      var rest := s[i + 1..];
      var j := RunLength(rest, DomainLabel);
      if j == 0 || j == |rest| || rest[j] != '.' then
        MatchesPatternComplete(s);
        false
      else
        var tail := rest[j + 1..];
        if tail != [] && RunLength(tail, Tail) == |tail| then
          MatchesPatternSound(s, i, j);
          true
        else
          MatchesPatternComplete(s);
          false
  }

  /** `re.match` with `^...$` and no flags: `$` also matches just before a
      single trailing newline, so the accepted strings are the pattern's
      language, optionally followed by one "\n". */
  function IsValidEmail(s: string): (r: bool)
    ensures r <==> EmailForm(s) || (|s| > 0 && s[|s| - 1] == '\n' && EmailForm(s[..|s| - 1]))
  {
    MatchesPattern(s) || (|s| > 0 && s[|s| - 1] == '\n' && MatchesPattern(s[..|s| - 1]))
  }

  /** A run of class k followed by a character outside k is found exactly. */
  lemma RunLengthStopsAt(s: string, k: CharClass, n: nat)
    requires n <= |s|
    requires AllIn(s[..n], k)
    requires n == |s| || !InClass(s[n], k)
    ensures RunLength(s, k) == n
  {
  }

  /** The decomposition that EmailForm asks for. */
  ghost predicate EmailParts(s: string, l: string, d: string, t: string) {
    IsRun(l, LocalPart) && IsRun(d, DomainLabel) && IsRun(t, Tail) &&
    s == l + "@" + d + "." + t
  }

  /** Splitting a string around one of its characters and joining it back. */
  lemma SplitAround(s: string, i: nat)
    requires i < |s|
    ensures s == s[..i] + [s[i]] + s[i + 1..]
  {
  }

  /** Where the pieces of `l + [c] + r` sit. */
  lemma PiecesOf(l: string, c: char, r: string)
    ensures (l + [c] + r)[..|l|] == l
    ensures (l + [c] + r)[|l|] == c
    ensures (l + [c] + r)[|l| + 1..] == r
  {
  }

  /** Re-bracketing the concatenation of an address. */
  lemma Regroup(l: string, d: string, t: string)
    ensures l + "@" + d + "." + t == l + "@" + (d + "." + t)
  {
  }

  /** Runs that the recogniser finds in the right order split the string as
      the language asks. */
  lemma MatchesPatternSound(s: string, i: nat, j: nat)
    requires i == RunLength(s, LocalPart) && 0 < i < |s| && s[i] == '@'
    requires j == RunLength(s[i + 1..], DomainLabel) && 0 < j < |s[i + 1..]| && s[i + 1..][j] == '.'
    requires s[i + 1..][j + 1..] != [] && RunLength(s[i + 1..][j + 1..], Tail) == |s[i + 1..][j + 1..]|
    ensures EmailForm(s)
  {
    var rest := s[i + 1..];
    var l, d, t := s[..i], rest[..j], rest[j + 1..];
    assert IsRun(l, LocalPart);
    assert IsRun(d, DomainLabel);
    assert IsRun(t, Tail) by {
      assert RunLength(t, Tail) == |t|;
    }
    SplitAround(s, i);
    SplitAround(rest, j);
    Regroup(l, d, t);
    assert EmailParts(s, l, d, t);
  }

  /** In a string of the language the greedy runs end exactly at the '@', at
      the first '.' after it, and at the end of the string. */
  lemma MatchesPatternComplete(s: string)
    ensures EmailForm(s) ==>
              var i := RunLength(s, LocalPart);
              && 0 < i < |s| && s[i] == '@'
              && var rest := s[i + 1..];
                 var j := RunLength(rest, DomainLabel);
                 && 0 < j < |rest| && rest[j] == '.'
                 && var tail := rest[j + 1..];
                    tail != [] && RunLength(tail, Tail) == |tail|
  {
    if EmailForm(s) {
      var l, d, t :| EmailParts(s, l, d, t);
      var rest := d + "." + t;
      Regroup(l, d, t);
      PiecesOf(l, '@', rest);
      RunLengthStopsAt(s, LocalPart, |l|);
      PiecesOf(d, '.', t);
      RunLengthStopsAt(rest, DomainLabel, |d|);
      assert t[..|t|] == t;
      RunLengthStopsAt(t, Tail, |t|);
    }
  }

  /** s has exactly one '@', at index a, and the first '.' after it is at
      index p, with a non-empty label between them and something after p. */
  ghost predicate AtThenDot(s: string, a: int, p: int) {
    && 0 < a && a + 1 < p && p + 1 < |s|
    && s[a] == '@' && s[p] == '.'
    && (forall x :: 0 <= x < |s| && s[x] == '@' ==> x == a)
    && (forall x :: a < x < p ==> s[x] != '.')
  }

  lemma EmailFormShape(s: string)
    requires EmailForm(s)
    ensures exists a, p :: AtThenDot(s, a, p)
  {
    var l, d, t :| EmailParts(s, l, d, t);
    var a, p := |l|, |l| + 1 + |d|;
    assert AtThenDot(s, a, p);
  }

  /** The shape carries over to the language followed by one newline. */
  lemma AcceptedLanguageShape(s: string)
    requires EmailForm(s) || (|s| > 0 && s[|s| - 1] == '\n' && EmailForm(s[..|s| - 1]))
    ensures exists a, p :: AtThenDot(s, a, p)
  {
    if EmailForm(s) {
      EmailFormShape(s);
    } else {
      var u := s[..|s| - 1];
      EmailFormShape(u);
      var a, p :| AtThenDot(u, a, p);
      assert AtThenDot(s, a, p);
    }
  }

  /** Every accepted address has a single '@' and, after it, a '.' preceded by a
      non-empty dot-free label and followed by at least one character (the
      trailing newline aside). */
  lemma ValidEmailShape(s: string)
    requires IsValidEmail(s)
    ensures exists a, p :: AtThenDot(s, a, p)
  {
    AcceptedLanguageShape(s);
  }

  /** A string without '@' is rejected. */
  lemma NoAtRejected(s: string)
    requires forall x :: 0 <= x < |s| ==> s[x] != '@'
    ensures !IsValidEmail(s)
  {
  }

  /** A string with no '.' after its (first) '@' is rejected. */
  lemma NoDotAfterAtRejected(s: string, a: nat)
    requires a < |s| && s[a] == '@'
    requires forall x :: a < x < |s| ==> s[x] != '.'
    ensures !IsValidEmail(s)
  {
    if IsValidEmail(s) {
      ValidEmailShape(s);
    }
  }

  /** No string of the language ends in a newline. */
  lemma EmailFormEndsInTail(s: string)
    requires EmailForm(s)
    ensures s[|s| - 1] != '\n'
  {
    var l, d, t :| EmailParts(s, l, d, t);
    var front := l + "@" + d + ".";
    assert s == front + t;
    assert s[|s| - 1] == t[|t| - 1];
  }

  /** The trailing-newline rule of `$`: an address of the language followed by
      "\n" is accepted, although the language itself has no newline in it. */
  lemma TrailingNewlineAccepted(s: string)
    requires EmailForm(s)
    ensures IsValidEmail(s + "\n")
    ensures !EmailForm(s + "\n")
  {
    assert (s + "\n")[..|s|] == s;
    if EmailForm(s + "\n") {
      EmailFormEndsInTail(s + "\n");
    }
  }

  /** An ordinary address is accepted. */
  lemma ExampleAccepted()
    ensures IsValidEmail("user@example.com")
  {
    var e, l, d, t := "user@example.com", "user", "example", "com";
    assert IsRun(l, LocalPart) && IsRun(d, DomainLabel) && IsRun(t, Tail);
    assert e == l + "@" + d + "." + t;
    assert EmailParts(e, l, d, t);
    assert EmailForm(e);
  }

  /** A string without '@' is rejected. */
  lemma ExampleRejected()
    ensures !IsValidEmail("bad-email")
  {
    var s := "bad-email";
    assert '@' !in s;
    NoAtRejected(s);
  }
}
