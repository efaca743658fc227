/** Strings in memory that end with a NUL. */
module CStrings {

  /** The index of the first NUL at or behind `p`, |m| if there is none. */
  function StrEnd(m: string, p: nat): (e: nat)
    requires p <= |m|
    ensures p <= e <= |m| && (e < |m| ==> m[e] == '\0')
    decreases |m| - p
  {
    if p == |m| || m[p] == '\0' then p else StrEnd(m, p + 1)
  }

  /** The string that starts at `p`. */
  function CStr(m: string, p: nat): string
    requires p <= |m|
  {
    m[p..StrEnd(m, p)]
  }

  lemma StrEndIs(m: string, p: nat, e: nat)
    requires p <= e < |m| && m[e] == '\0' && '\0' !in m[p..e]
    ensures StrEnd(m, p) == e
    decreases e - p
  {
    if p < e {
      assert m[p] == m[p..e][0];
      assert m[p + 1..e] == m[p..e][1..];
      StrEndIs(m, p + 1, e);
    }
  }

  /** The C string `s` is in memory at `p`. */
  predicate HasString(m: string, p: nat, s: string)
    decreases |s|
  {
    if s == "" then p < |m| && m[p] == '\0'
    else p < |m| && m[p] == s[0] && s[0] != '\0' && HasString(m, p + 1, s[1..])
  }

  lemma {:induction false} HasStringIs(m: string, p: nat, s: string)
    ensures HasString(m, p, s) <==>
            p + |s| < |m| && m[p..p + |s|] == s && m[p + |s|] == '\0' && '\0' !in s
    decreases |s|
  {
    if s == "" {
      assert p < |m| ==> m[p..p] == s;
    } else {
      HasStringIs(m, p + 1, s[1..]);
      assert s == [s[0]] + s[1..];
      if p + |s| < |m| {
        assert m[p..p + |s|] == [m[p]] + m[p + 1..p + |s|];
        assert m[p..p + |s|] == s ==> m[p..p + |s|][0] == s[0] && m[p..p + |s|][1..] == s[1..];
      }
    }
  }

  lemma {:induction false} HasStringAt(m: string, p: nat, s: string, i: nat)
    requires HasString(m, p, s) && i <= |s|
    ensures p + i < |m| && (if i < |s| then m[p + i] == s[i] && s[i] != '\0' else m[p + i] == '\0')
    ensures HasString(m, p + i, s[i..])
    decreases i
  {
    if i > 0 {
      HasStringAt(m, p + 1, s[1..], i - 1);
      assert s[1..][i - 1..] == s[i..];
    } else {
      assert s[0..] == s;
    }
  }

  lemma StringIsCStr(m: string, p: nat, s: string)
    requires HasString(m, p, s)
    ensures p < |m| && CStr(m, p) == s && '\0' !in s
  {
    HasStringIs(m, p, s);
    StrEndIs(m, p, p + |s|);
  }

  /** strlen. */
  method Strlen(buf: array<char>, p: nat, ghost s: string) returns (n: nat)
    requires HasString(buf[..], p, s)
    ensures n == |s|
  {
    n := 0;
    HasStringAt(buf[..], p, s, 0);
    while buf[p + n] != '\0'
      invariant n <= |s| && p + n < buf.Length
      invariant if n < |s| then s[n] != '\0' && buf[p + n] == s[n] else buf[p + n] == '\0'
      decreases |s| - n
    {
      HasStringAt(buf[..], p, s, n + 1);
      n := n + 1;
    }
  }
}
