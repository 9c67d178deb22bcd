/** The string functions of Go's standard library that the gateway parses with. */
module GoStrings {
  /** unicode.IsSpace */
  predicate IsSpace(c: char) {
    || '\t' <= c <= '\r' || c == ' ' || c == '\U{0085}' || c == '\U{00A0}' || c == '\U{1680}'
    || '\U{2000}' <= c <= '\U{200A}' || c == '\U{2028}' || c == '\U{2029}' || c == '\U{202F}'
    || c == '\U{205F}' || c == '\U{3000}'
  }

  predicate AllSpace(s: string) {
    forall i :: 0 <= i < |s| ==> IsSpace(s[i])
  }

  predicate IsTrimmed(s: string) {
    s == "" || (!IsSpace(s[0]) && !IsSpace(s[|s| - 1]))
  }

  function TrimLeft(s: string): (t: string)
    ensures |t| <= |s| && t == s[|s| - |t|..] && AllSpace(s[..|s| - |t|])
    ensures t == "" || !IsSpace(t[0])
  {
    hide IsSpace;
    if s != "" && IsSpace(s[0]) then
      assert forall i :: 0 < i < |s| ==> s[i] == s[1..][i - 1];
      TrimLeft(s[1..])
    else s
  }

  function TrimRight(s: string): (t: string)
    ensures t <= s && AllSpace(s[|t|..])
    ensures t == "" || !IsSpace(t[|t| - 1])
  {
    hide IsSpace;
    if s != "" && IsSpace(s[|s| - 1]) then TrimRight(s[..|s| - 1]) else s
  }

  function TrimSpace(s: string): string {
    TrimRight(TrimLeft(s))
  }

  /** strings.TrimRight(s, "\r\n") */
  function TrimLineEnd(s: string): (t: string)
    ensures t <= s && forall i :: |t| <= i < |s| ==> s[i] == '\r' || s[i] == '\n'
    ensures t == "" || (t[|t| - 1] != '\r' && t[|t| - 1] != '\n')
  {
    if s != "" && (s[|s| - 1] == '\r' || s[|s| - 1] == '\n') then TrimLineEnd(s[..|s| - 1]) else s
  }

  /** The first index of `c`, or the length if there is none. */
  function IndexOf(s: string, c: char): (i: nat)
    ensures i <= |s| && c !in s[..i] && (i < |s| ==> s[i] == c)
  {
    if s == "" || s[0] == c then 0
    else
      var i := IndexOf(s[1..], c) + 1;
      assert s[..i] == [s[0]] + s[1..][..i - 1];
      i
  }

  lemma {:induction false} IndexOfIs(s: string, c: char, i: nat)
    requires i <= |s| && c !in s[..i] && (i < |s| ==> s[i] == c)
    ensures IndexOf(s, c) == i
  {
    if i > 0 {
      assert s[..i] == [s[0]] + s[1..][..i - 1];
      IndexOfIs(s[1..], c, i - 1);
    }
  }

  lemma {:induction false} TrimLeftIs(p: string, t: string)
    requires AllSpace(p) && (t == "" || !IsSpace(t[0]))
    ensures TrimLeft(p + t) == t
  {
    hide IsSpace;
    if p == "" {
      assert p + t == t;
    } else {
      assert (p + t)[1..] == p[1..] + t;
      TrimLeftIs(p[1..], t);
    }
  }

  lemma {:induction false} TrimRightIs(t: string, q: string)
    requires AllSpace(q) && (t == "" || !IsSpace(t[|t| - 1]))
    ensures TrimRight(t + q) == t
  {
    hide IsSpace;
    if q == "" {
      assert t + q == t;
    } else {
      assert (t + q)[..|t + q| - 1] == t + q[..|q| - 1];
      TrimRightIs(t, q[..|q| - 1]);
    }
  }

  /** Trimming is decided by what it leaves: a trimmed text with only space around it. */
  lemma TrimIs(p: string, t: string, q: string)
    requires AllSpace(p) && AllSpace(q) && IsTrimmed(t) && (t == "" ==> q == "")
    ensures TrimSpace(p + t + q) == t
  {
    hide IsSpace, AllSpace, TrimLeft, TrimRight;
    assert p + t + q == p + (t + q);
    TrimLeftIs(p, t + q);
    TrimRightIs(t, q);
  }

  /** Every text is what trimming leaves, with only space around it. */
  lemma TrimSplits(s: string) returns (p: string, q: string)
    ensures s == p + TrimSpace(s) + q && AllSpace(p) && AllSpace(q) && IsTrimmed(TrimSpace(s))
    ensures TrimSpace(s) == "" ==> q == ""
  {
    hide IsSpace, TrimLeft, TrimRight;
    var left := TrimLeft(s);
    var right := TrimRight(left);
    p, q := s[..|s| - |left|], left[|right|..];
    assert s == p + left;
    assert right == "" ==> q == left;
  }

  /** More space around a text makes no difference. */
  lemma TrimPadded(p: string, s: string, q: string)
    requires AllSpace(p) && AllSpace(q)
    ensures TrimSpace(p + s + q) == TrimSpace(s)
  {
    hide IsSpace, TrimSpace;
    var p', q' := TrimSplits(s);
    var t := TrimSpace(s);
    if t == "" {
      assert p + s + q == (p + p' + q) + "" + "";
      TrimIs(p + p' + q, "", "");
    } else {
      assert p + s + q == (p + p') + t + (q' + q);
      TrimIs(p + p', t, q' + q);
    }
  }

  lemma TrimOfTrimmed(s: string)
    requires IsTrimmed(s)
    ensures TrimSpace(s) == s
  {
    hide IsSpace, TrimSpace;
    TrimIs("", s, "");
    assert "" + s + "" == s;
  }

  /** strings.Contains */
  predicate Contains(s: string, p: string)
    decreases |s|
  {
    p <= s || (s != "" && Contains(s[1..], p))
  }

  lemma {:induction false} ContainsChars(s: string, p: string, c: char)
    requires c in p && c !in s
    ensures !Contains(s, p)
    decreases |s|
  {
    if s != "" {
      ContainsChars(s[1..], p, c);
    }
  }

  /** Text whose characters cannot start the pattern adds no occurrence in front. */
  lemma {:induction false} PrependForeign(front: string, x: string, p: string)
    requires p != "" && p[0] !in front && !Contains(x, p)
    ensures !Contains(front + x, p)
    decreases |front|
  {
    if front == "" {
      assert front + x == x;
    } else {
      assert (front + x)[1..] == front[1..] + x;
      assert (front + x)[0] == front[0];
      PrependForeign(front[1..], x, p);
    }
  }

  /** Text in which the pattern's last character is missing adds no occurrence behind. */
  lemma {:induction false} AppendForeign(x: string, end: string, p: string)
    requires p != "" && p[|p| - 1] !in end && !Contains(x, p)
    ensures !Contains(x + end, p)
    decreases |x|
  {
    PrefixEndsInside(x, end, p);
    if x == "" {
      assert x + end == end;
      ContainsChars(end, p, p[|p| - 1]);
    } else {
      assert (x + end)[1..] == x[1..] + end;
      AppendForeign(x[1..], end, p);
    }
  }

  lemma PrefixEndsInside(x: string, end: string, p: string)
    requires p != "" && p[|p| - 1] !in end
    ensures p <= x + end ==> p <= x
  {
    if p <= x + end {
      assert p[|p| - 1] == (x + end)[|p| - 1];
    }
  }
}
