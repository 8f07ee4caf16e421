/**
  What the text scanners share: the character classes, and the quotation marks that backslashes
  in front of them keep from ending a literal.
 */
module Characters {

  predicate IsSpace(c: char) { c == ' ' || (9 as char <= c <= 13 as char) }

  predicate IsQuote(c: char) { c == '"' || c == '\'' }

  // Exactly n backslashes stand in front of position k.
  predicate BackslashRun(s: string, k: nat, n: nat) {
    n <= k <= |s| && (forall i :: k - n <= i < k ==> s[i] == '\\') && (n < k ==> s[k - n - 1] != '\\')
  }

  // An even number of backslashes stands in front of position k.
  predicate Bare(s: string, k: nat) {
    exists n :: 0 <= n <= k && BackslashRun(s, k, n) && n % 2 == 0
  }

  // The first bare mark of the kind from p on is at k.
  predicate FirstBare(s: string, p: nat, mark: char, k: nat) {
    p <= k < |s| && s[k] == mark && Bare(s, k) && forall i :: p <= i < k && s[i] == mark ==> !Bare(s, i)
  }

  // There is no bare mark of the kind from p on.
  predicate NoBare(s: string, p: nat, mark: char) {
    forall i :: p <= i < |s| && s[i] == mark ==> !Bare(s, i)
  }

  lemma RunUnique(s: string, k: nat, m: nat, n: nat)
    requires BackslashRun(s, k, m) && BackslashRun(s, k, n)
    ensures m == n
  {
  }

  lemma {:induction false} RunExists(s: string, k: nat) returns (n: nat)
    requires k <= |s|
    ensures BackslashRun(s, k, n)
    decreases k
  {
    n := 0;
    if k > 0 && s[k - 1] == '\\' {
      var m := RunExists(s, k - 1);
      n := m + 1;
    }
  }

  // A position is bare or not by the length of its run.
  lemma BareIff(s: string, k: nat, n: nat)
    requires BackslashRun(s, k, n)
    ensures Bare(s, k) <==> n % 2 == 0
  {
    if Bare(s, k) {
      var m :| 0 <= m <= k && BackslashRun(s, k, m) && m % 2 == 0;
      RunUnique(s, k, m, n);
    }
  }

  // A backslash turns a bare position into one that is not, and back; any other character leaves a bare one.
  lemma BareNext(s: string, k: nat)
    requires k < |s|
    ensures Bare(s, k + 1) <==> s[k] != '\\' || !Bare(s, k)
  {
    var n := RunExists(s, k);
    BareIff(s, k, n);
    BareIff(s, k + 1, if s[k] == '\\' then n + 1 else 0);
  }

  lemma BareStart(s: string)
    ensures Bare(s, 0)
  {
    assert BackslashRun(s, 0, 0);
  }

  // The search for a bare mark has one outcome.
  lemma {:induction false} SearchBare(s: string, p: nat, mark: char) returns (k: nat)
    requires p <= |s|
    ensures if k < |s| then FirstBare(s, p, mark, k) else k == |s| && NoBare(s, p, mark)
    decreases |s| - p
  {
    if p == |s| || (s[p] == mark && Bare(s, p)) {
      k := p;
    } else {
      k := SearchBare(s, p + 1, mark);
    }
  }
}
