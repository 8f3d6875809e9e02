/** The password strength rule of the signup endpoint: at least eight
    characters, a digit and an upper-case letter. Character classification is
    ASCII only. */
module PasswordPolicy {

  /** The two character tests the rule applies. */
  datatype CharKind = Digit | Upper

  predicate IsDigit(c: char) { '0' <= c <= '9' }

  predicate IsUpper(c: char) { 'A' <= c <= 'Z' }

  predicate HasKind(c: char, kind: CharKind) {
    match kind
    case Digit => IsDigit(c)
    case Upper => IsUpper(c)
  }

  /** `any(test(c) for c in s)`: some character of s passes the test. */
  function AnyOf(s: string, kind: CharKind): (r: bool)
    ensures r <==> exists i :: 0 <= i < |s| && HasKind(s[i], kind)
  {
    if s == [] then false
    else if HasKind(s[0], kind) then true
    else
      var r := AnyOf(s[1..], kind);
      assert forall i :: 1 <= i < |s| ==> s[i] == s[1..][i - 1];
      r
  }

  /** The rule, with no further condition: length, a digit, an upper-case letter. */
  function IsStrongPassword(p: string): (r: bool)
    ensures r <==>
              && |p| >= 8
              && (exists i :: 0 <= i < |p| && IsDigit(p[i]))
              && (exists j :: 0 <= j < |p| && IsUpper(p[j]))
  {
    |p| >= 8 && AnyOf(p, Digit) && AnyOf(p, Upper)
  }

  /** Appending characters never makes a strong password weak. */
  lemma {:induction false} StrongPasswordExtends(p: string, q: string)
    requires IsStrongPassword(p)
    ensures IsStrongPassword(p + q)
  {
    var i :| 0 <= i < |p| && IsDigit(p[i]);
    var j :| 0 <= j < |p| && IsUpper(p[j]);
    assert (p + q)[i] == p[i] && (p + q)[j] == p[j];
  }

  /** Sample passwords: "Passw0rd" passes; "password" (no digit, no
      upper case) and "short1A" (seven characters) fail. */
  lemma Examples()
    ensures IsStrongPassword("Passw0rd")
    ensures !IsStrongPassword("password")
    ensures !IsStrongPassword("short1A")
  {
    assert IsDigit("Passw0rd"[5]) && IsUpper("Passw0rd"[0]);
    assert !AnyOf("password", Digit) by {
      var w := "password";
      forall i | 0 <= i < |w| ensures !IsDigit(w[i]) {
        assert w[i] in "pasword";
      }
    }
    assert |"short1A"| == 7;
  }
}
