/** C string conventions the server's message handling relies on: the NUL
    terminator, reading a string up to its first NUL (what strlen, strcmp,
    strcpy and a `%s` conversion see), and the effect of sprintf storing a
    formatted string and its terminator at the start of a buffer. */
module CStrings {

  const NUL: char := '\0'

  predicate NulFree(s: seq<char>) {
    forall i :: 0 <= i < |s| ==> s[i] != NUL
  }

  lemma NulFreeConcat(a: seq<char>, b: seq<char>)
    ensures NulFree(a + b) <==> NulFree(a) && NulFree(b)
  {
    if NulFree(a) && NulFree(b) {
      forall i | 0 <= i < |a + b| ensures (a + b)[i] != NUL {
        if i >= |a| { assert (a + b)[i] == b[i - |a|]; }
      }
    }
    if NulFree(a + b) {
      forall i | 0 <= i < |a| ensures a[i] != NUL {
        assert (a + b)[i] == a[i];
      }
      forall i | 0 <= i < |b| ensures b[i] != NUL {
        assert (a + b)[|a| + i] == b[i];
      }
    }
  }

  /** The C string stored at the start of `s`: every character before the
      first NUL, or all of `s` when it holds none. */
  function CStr(s: seq<char>): (r: seq<char>)
    ensures |r| <= |s| && r == s[..|r|]
    ensures NulFree(r)
    ensures |r| < |s| ==> s[|r|] == NUL
  {
    if s == [] || s[0] == NUL then [] else [s[0]] + CStr(s[1..])
  }

  /** The three properties of CStr determine it: any NUL-free prefix of `s`
      that is followed by a NUL or ends `s` is the C string of `s`. */
  lemma {:induction false} CStrUnique(s: seq<char>, r: seq<char>)
    requires |r| <= |s| && r == s[..|r|] && NulFree(r)
    requires |r| < |s| ==> s[|r|] == NUL
    ensures CStr(s) == r
  {
    if s != [] && s[0] != NUL {
      assert |r| > 0;
      assert r == [s[0]] + r[1..];
      assert r[1..] == s[1..][..|r| - 1];
      CStrUnique(s[1..], r[1..]);
    } else if s != [] {
      assert |r| == 0;
    }
  }

  lemma CStrOfNulFree(s: seq<char>)
    requires NulFree(s)
    ensures CStr(s) == s
  {
    CStrUnique(s, s);
  }

  /** A NUL at position k ends the C string no later than k: the bytes after
      it are never read. */
  lemma {:induction false} CStrUpTo(s: seq<char>, k: int)
    requires 0 <= k < |s| && s[k] == NUL
    ensures CStr(s) == CStr(s[..k])
  {
    var c := CStr(s[..k]);
    assert s[..k][..|c|] == s[..|c|];
    if |c| == k {
      assert s[|c|] == NUL;
    }
    CStrUnique(s, c);
  }

  /** The buffer `s` after sprintf has stored `t` and its terminator at its
      start; the bytes past the terminator keep their old values. */
  function Overwrite(s: seq<char>, t: seq<char>): (r: seq<char>)
    requires |t| < |s|
    ensures |r| == |s|
    ensures NulFree(t) ==> CStr(r) == t
    ensures forall i :: |t| < i < |s| ==> r[i] == s[i]
  {
    var r := t + [NUL] + s[|t| + 1..];
    assert r[..|t|] == t;
    if NulFree(t) then CStrUnique(r, t); r else r
  }
}
