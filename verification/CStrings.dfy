/** What strlen and strstr see of a byte sequence: the part before its first NUL. */
module CStrings {
  import opened ByteOrder

  function CString(s: seq<Byte>): (c: seq<Byte>)
    ensures |c| <= |s| && c == s[..|c|] && 0 !in c
    ensures |c| < |s| ==> s[|c|] == 0
  {
    if |s| == 0 || s[0] == 0 then [] else [s[0]] + CString(s[1..])
  }

  predicate NulFree(s: seq<Byte>) {
    0 !in s
  }

  lemma NulFreeIff(s: seq<Byte>)
    ensures NulFree(s) <==> CString(s) == s
    ensures NulFree(s) <==> |CString(s)| == |s|
  {
  }

  /** A C string that ends at a NUL is not changed by what is appended; one that does not goes on. */
  lemma {:induction false} CStringAppend(s: seq<Byte>, t: seq<Byte>)
    ensures CString(s + t) == if NulFree(s) then s + CString(t) else CString(s)
  {
    if |s| == 0 {
      assert s + t == t;
    } else {
      assert (s + t)[1..] == s[1..] + t;
      CStringAppend(s[1..], t);
      NulFreeIff(s[1..]);
      assert s == [s[0]] + s[1..];
    }
  }
}
