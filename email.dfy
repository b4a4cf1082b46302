/** The e-mail shape both contact controllers check, `/^[^\s@]+@[^\s@]+\.[^\s@]+$/`: a
    local part, one '@', and a domain with a dot that is neither its first nor its last
    character, with no whitespace and no second '@' anywhere. */
module EmailFormat {
  import opened Js

  /** A character of the class `[^\s@]`. */
  predicate PlainChar(c: char)
  {
    !IsWhitespace(c) && c != '@'
  }

  /** A run of `[^\s@]+` (or the empty run). */
  predicate Plain(s: string)
  {
    forall i :: 0 <= i < |s| ==> PlainChar(s[i])
  }

  function Address(local: string, host: string, top: string): string
  {
    local + "@" + host + "." + top
  }

  /** The regular expression matches `s`: it splits into the three non-empty runs. */
  ghost predicate MatchesEmailRegex(s: string)
  {
    exists local, host, top :: s == Address(local, host, top) &&
      local != "" && host != "" && top != "" && Plain(local) && Plain(host) && Plain(top)
  }

  /** The domain has a dot strictly inside it. */
  predicate HasInnerDot(d: string)
  {
    exists i :: 0 < i < |d| - 1 && d[i] == '.'
  }

  /** The check as one pass over the text: split at the first '@', then look at each side. */
  predicate IsValidEmail(s: string)
    ensures IsValidEmail(s) ==> |s| >= 5 && '@' in s
  {
    var k := IndexOf(s, "@");
    k > 0 && Plain(s[..k]) && Plain(s[k + 1..]) && HasInnerDot(s[k + 1..])
  }

  /** The two runs either side of a dot inside a plain run are plain. */
  lemma {:induction false} PlainAround(d: string, i: int)
    requires Plain(d) && 0 <= i < |d|
    ensures Plain(d[..i]) && Plain(d[i + 1..])
  {
    forall m | 0 <= m < i ensures PlainChar(d[..i][m]) {
      assert d[..i][m] == d[m];
    }
    var t := d[i + 1..];
    forall m | 0 <= m < |t| ensures PlainChar(t[m]) {
      assert t[m] == d[i + 1 + m];
    }
  }

  /** Cutting at the '@' and at a dot after it gives back the address. */
  lemma {:induction false} CutAddress(s: string, k: int, i: int)
    requires 0 <= k < |s| && s[k] == '@'
    requires 0 <= i < |s| - k - 1 && s[k + 1..][i] == '.'
    ensures s == Address(s[..k], s[k + 1..][..i], s[k + 1..][i + 1..])
  {
    var d := s[k + 1..];
    assert d == d[..i] + "." + d[i + 1..];
    assert s == s[..k] + "@" + d;
  }

  /** Each address the check accepts splits into the regular expression's three runs. */
  lemma {:induction false} ValidEmailMatches(s: string)
    requires IsValidEmail(s)
    ensures MatchesEmailRegex(s)
  {
    var k := IndexOf(s, "@");
    var d := s[k + 1..];
    var i :| 0 < i < |d| - 1 && d[i] == '.';
    assert s[k] == '@' by { assert s[k..k + 1] == "@"; }
    CutAddress(s, k, i);
    PlainAround(d, i);
    var local, host, top := s[..k], d[..i], d[i + 1..];
    assert s == Address(local, host, top) && local != "" && host != "" && top != "";
  }

  /** The first '@' of an address is the one after its local part. */
  lemma {:induction false} AtOfAddress(local: string, host: string, top: string)
    requires Plain(local)
    ensures IndexOf(Address(local, host, top), "@") == |local|
  {
    var s := Address(local, host, top);
    var k := |local|;
    assert OccursAt(s, "@", k) by { assert s[k..k + 1] == "@"; }
    forall j | 0 <= j < k ensures !OccursAt(s, "@", j) {
      assert s[j] == local[j];
    }
  }

  /** Each string the regular expression matches passes the check. */
  lemma {:induction false} MatchingEmailValid(local: string, host: string, top: string)
    requires local != "" && host != "" && top != "" && Plain(local) && Plain(host) && Plain(top)
    ensures IsValidEmail(Address(local, host, top))
  {
    var s := Address(local, host, top);
    var k := |local|;
    AtOfAddress(local, host, top);
    var d := host + "." + top;
    assert s == local + "@" + d;
    assert s[..k] == local;
    assert s[k + 1..] == d;
    assert Plain(d) by {
      forall j | 0 <= j < |d| ensures PlainChar(d[j]) {
        if j < |host| {
          assert d[j] == host[j];
        } else if j > |host| {
          assert d[j] == top[j - |host| - 1];
        }
      }
    }
    assert d[|host|] == '.';
  }

  /** The computed check and the regular expression accept the same strings. */
  lemma {:induction false} IsValidEmailMatchesRegex(s: string)
    ensures IsValidEmail(s) <==> MatchesEmailRegex(s)
  {
    if IsValidEmail(s) {
      ValidEmailMatches(s);
    }
    if MatchesEmailRegex(s) {
      var local, host, top :| s == Address(local, host, top) &&
        local != "" && host != "" && top != "" && Plain(local) && Plain(host) && Plain(top);
      MatchingEmailValid(local, host, top);
    }
  }

  /** What an accepted address looks like: no whitespace, exactly one '@' with something
      before it, and a dot inside the part after it. */
  lemma {:induction false} AcceptedEmailShape(s: string)
    requires IsValidEmail(s)
    ensures forall i :: 0 <= i < |s| ==> !IsWhitespace(s[i])
    ensures exists k :: 0 < k < |s| && s[k] == '@' && (forall j :: 0 <= j < |s| && j != k ==> s[j] != '@')
    ensures var k := IndexOf(s, "@"); exists i :: k + 1 < i < |s| - 1 && s[i] == '.'
  {
    var k := IndexOf(s, "@");
    assert s[k..k + 1] == "@";
    forall i | 0 <= i < |s| ensures !IsWhitespace(s[i]) && (i != k ==> s[i] != '@') {
      if i < k {
        assert s[i] == s[..k][i];
      } else if i > k {
        assert s[i] == s[k + 1..][i - k - 1];
      }
    }
    var d := s[k + 1..];
    var i :| 0 < i < |d| - 1 && d[i] == '.';
    assert s[k + 1 + i] == '.';
  }
}
