/**
 The server's email check, the anchored pattern `[^@]+@[^@]+\.[^@]+`: one `@`
 with at least one character before it, and after it a domain with no `@` that
 holds a `.` with at least one character on each side.
 */
module Email {

  /** Position of the first `c` in `s`, or `|s|` when there is none. */
  function IndexOf(s: string, c: char): (i: nat)
    ensures i <= |s|
    ensures i < |s| ==> s[i] == c
    ensures forall j :: 0 <= j < i ==> s[j] != c
  {
    if s == [] then 0
    else if s[0] == c then 0
    else 1 + IndexOf(s[1..], c)
  }

  /** The domain part `[^@]+\.[^@]+`: a `.` that is neither first nor last. */
  predicate HasInnerDot(d: string) {
    exists k :: 0 < k < |d| - 1 && d[k] == '.'
  }

  /** True when the whole of `s` matches the server's email pattern. */
  predicate IsValidEmail(s: string) {
    var i := IndexOf(s, '@');
    0 < i < |s| && '@' !in s[i + 1..] && HasInnerDot(s[i + 1..])
  }

  /** Every string built as `local@host.tld` from non-empty, `@`-free parts is accepted. */
  lemma EmailAccepts(local: string, host: string, tld: string)
    requires local != [] && host != [] && tld != []
    requires '@' !in local && '@' !in host && '@' !in tld
    ensures IsValidEmail(local + "@" + host + "." + tld)
  {
    var s := local + "@" + host + "." + tld;
    var d := host + "." + tld;
    assert s == local + ("@" + d);
    assert s[|local|] == '@';
    assert forall j :: 0 <= j < |local| ==> s[j] == local[j];
    assert IndexOf(s, '@') == |local|;
    assert s[|local| + 1..] == d;
    forall k | 0 <= k < |d|
      ensures d[k] != '@'
    {
      if k < |host| {
        assert d[k] == host[k];
      } else if k > |host| {
        assert d[k] == tld[k - |host| - 1];
      }
    }
    assert d[|host|] == '.';
  }

  /**
   Every accepted string splits as `local@host.tld` with non-empty, `@`-free parts;
   together with `EmailAccepts` this is exactly the pattern's language.
   */
  lemma EmailSplit(s: string) returns (local: string, host: string, tld: string)
    requires IsValidEmail(s)
    ensures s == local + "@" + host + "." + tld
    ensures local != [] && host != [] && tld != []
    ensures '@' !in local && '@' !in host && '@' !in tld
  {
    var i := IndexOf(s, '@');
    var d := s[i + 1..];
    var k :| 0 < k < |d| - 1 && d[k] == '.';
    local, host, tld := s[..i], d[..k], d[k + 1..];
    assert d == host + "." + tld;
    assert s == s[..i] + "@" + d;
    assert forall j :: 0 <= j < |local| ==> local[j] == s[j];
    assert forall j :: 0 <= j < |host| ==> host[j] == d[j];
    assert forall j :: 0 <= j < |tld| ==> tld[j] == d[k + 1 + j];
  }

  /** A string with no `@`, or with two of them, is rejected. */
  lemma EmailNeedsExactlyOneAt(s: string)
    ensures '@' !in s ==> !IsValidEmail(s)
    ensures (exists a, b :: 0 <= a < b < |s| && s[a] == '@' && s[b] == '@') ==> !IsValidEmail(s)
  {
    if IsValidEmail(s) {
      var local, host, tld := EmailSplit(s);
      assert s[|local|] == '@';
      AtOnlyAtSeparator(local, host, tld);
    }
  }

  /** In `local@host.tld` with `@`-free parts the only `@` is the separator. */
  lemma AtOnlyAtSeparator(local: string, host: string, tld: string)
    requires '@' !in local && '@' !in host && '@' !in tld
    ensures forall a :: 0 <= a < |local + "@" + host + "." + tld| && a != |local| ==>
      (local + "@" + host + "." + tld)[a] != '@'
  {
    var s := local + "@" + host + "." + tld;
    forall a | 0 <= a < |s| && a != |local|
      ensures s[a] != '@'
    {
      if a < |local| {
        assert s[a] == local[a];
      } else if a <= |local| + |host| {
        assert s[a] == host[a - |local| - 1];
      } else if a > |local| + |host| + 1 {
        assert s[a] == tld[a - |local| - |host| - 2];
      }
    }
  }
}
