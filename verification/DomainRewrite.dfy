/** Rewriting the domain in SIP messages: four replace-all passes over the text, each
    anchored by a marker in front of the domain. The question is when the passes
    leave no marked source domain behind, and when a second run changes nothing. */
module DomainRewrite {
  import opened GoStrings
  import opened SipExtraction

  // ------------------------------------------------------------- Go's strings

  /** strings.Replace(s, old, new, -1): leftmost matches, not overlapping. */
  function Replace(s: string, old_: string, new_: string): string
    requires old_ != ""
    decreases |s|
  {
    if s == "" then ""
    else if old_ <= s then new_ + Replace(s[|old_|..], old_, new_)
    else [s[0]] + Replace(s[1..], old_, new_)
  }

  predicate EndsWith(s: string, p: string) {
    |p| <= |s| && s[|s| - |p|..] == p
  }

  // ---------------------------------------------------------------- the passes

  function Pass(s: string, marker: string, source: string, target: string): string
    requires marker != ""
  {
    Replace(s, marker + source, marker + target)
  }

  function Rewrite(message: string, source: string, target: string): string {
    var m1 := Pass(message, "@", source, target);
    var m2 := Pass(m1, "sip:", source, target);
    var m3 := Pass(m2, "<sip:", source, target);
    Pass(m3, ";domain=", source, target)
  }

  /** None of the characters that make up the markers' punctuation: every domain name
      is plain, and so is anything else without @ : ; = and <. */
  predicate Plain(s: string) {
    '@' !in s && ':' !in s && ';' !in s && '=' !in s && '<' !in s
  }

  /** Some marked source domain is left. */
  predicate Leftover(s: string, source: string) {
    Contains(s, "@" + source) || Contains(s, "sip:" + source) || Contains(s, ";domain=" + source)
  }

  /** Neither domain begins with the other, and the target does not end in the
      beginning of "sip:", so that it cannot be glued to what follows it. */
  predicate Separate(source: string, target: string) {
    && !(source <= target) && !(target <= source)
    && !EndsWith(target, "s") && !EndsWith(target, "si") && !EndsWith(target, "sip")
  }

  // --------------------------------------------------------- about containment

  lemma {:induction false} ContainsIn(before: string, p: string, after: string)
    ensures Contains(before + p + after, p)
    decreases |before|
  {
    if before == "" {
      assert before + p + after == p + after;
    } else {
      assert (before + p + after)[1..] == before[1..] + p + after;
      ContainsIn(before[1..], p, after);
    }
  }

  lemma {:induction false} SuffixClean(s: string, p: string, i: nat)
    requires !Contains(s, p) && i <= |s|
    ensures !Contains(s[i..], p)
  {
    if i > 0 {
      SuffixClean(s[1..], p, i - 1);
      assert s[1..][i - 1..] == s[i..];
    }
  }

  // -------------------------------------------------------------- about Replace

  lemma {:induction false} ReplaceNothing(s: string, old_: string, new_: string)
    requires old_ != "" && !Contains(s, old_)
    ensures Replace(s, old_, new_) == s
    decreases |s|
  {
    if s != "" {
      ReplaceNothing(s[1..], old_, new_);
    }
  }

  lemma {:induction false} ReplaceSame(s: string, old_: string)
    requires old_ != ""
    ensures Replace(s, old_, old_) == s
    decreases |s|
  {
    if s == "" {
    } else if old_ <= s {
      ReplaceSame(s[|old_|..], old_);
      assert s == old_ + s[|old_|..];
    } else {
      ReplaceSame(s[1..], old_);
      assert s == [s[0]] + s[1..];
    }
  }

  /** A text that still contains the pattern is changed by the pass. */
  lemma {:induction false} ReplaceChanges(s: string, old_: string, new_: string)
    requires old_ != "" && !(old_ <= new_) && !(new_ <= old_) && Contains(s, old_)
    ensures Replace(s, old_, new_) != s
    decreases |s|
  {
    if old_ <= s {
      assert new_ <= Replace(s, old_, new_);
      PrefixesOfOne(old_, new_, s);
    } else {
      ReplaceChanges(s[1..], old_, new_);
      assert Replace(s, old_, new_)[1..] == Replace(s[1..], old_, new_);
    }
  }

  lemma PrefixesOfOne(p: string, q: string, s: string)
    ensures p <= s && q <= s ==> p <= q || q <= p
  {
    if p <= s && q <= s {
      assert p == s[..|p|] && q == s[..|q|];
    }
  }

  /** Up to the end of the first marker a pass changes nothing: a text without a whole
      marker in it begins the result exactly when it begins the input. */
  lemma {:induction false} PrefixKept(s: string, q: string, marker: string, source: string, target: string)
    requires marker != "" && !Contains(q, marker)
    ensures q <= s <==> q <= Pass(s, marker, source, target)
    decreases |s|
  {
    if s == "" || q == "" {
    } else if marker + source <= s {
      MarkerFirst(s, q, marker);
      MarkerFirst(Pass(s, marker, source, target), q, marker);
    } else {
      SuffixClean(q, marker, 1);
      PrefixKept(s[1..], q[1..], marker, source, target);
      PrefixByHead(s, q);
      PrefixByHead(Pass(s, marker, source, target), q);
    }
  }

  lemma MarkerFirst(s: string, q: string, marker: string)
    requires marker <= s && !Contains(q, marker)
    ensures q <= s <==> q <= marker
  {
    PrefixesOfOne(q, marker, s);
  }

  lemma PrefixByHead(s: string, q: string)
    requires s != "" && q != ""
    ensures q <= s <==> q[0] == s[0] && q[1..] <= s[1..]
  {
    if q[0] == s[0] && q[1..] <= s[1..] {
      assert q == [q[0]] + q[1..] && s == [s[0]] + s[1..];
    }
  }

  lemma PassMatches(marker: string, source: string, target: string, rest: string)
    requires marker != ""
    ensures Pass(marker + source + rest, marker, source, target) == marker + target + Pass(rest, marker, source, target)
  {
    var s := marker + source + rest;
    assert marker + source <= s && s[|marker + source|..] == rest;
  }

  // --------------------------------------------------- what a pass leaves behind

  /** No end of the target is the beginning of a marker. */
  predicate NoOverlap(target: string, marker: string) {
    target == "" || (!(target <= marker) && !(marker <= target) && NoOverlap(target[1..], marker))
  }

  lemma {:induction false} PrependTarget(target: string, x: string, marker: string, source: string)
    requires NoOverlap(target, marker) && !Contains(x, marker + source)
    ensures !Contains(target + x, marker + source)
    decreases |target|
  {
    if target == "" {
      assert target + x == x;
    } else {
      assert (target + x)[1..] == target[1..] + x;
      PrependTarget(target[1..], x, marker, source);
      assert marker <= marker + source && target <= target + x;
      PrefixesOfOne(marker, target, target + x);
    }
  }

  lemma BehindMarker(marker: string, source: string, x: string)
    ensures marker + source <= marker + x ==> source <= x
  {
    assert (marker + x)[|marker|..] == x;
    if marker + source <= marker + x {
      assert source == (marker + source)[|marker|..] == (marker + x)[|marker|..|marker| + |source|];
    }
  }

  /** A target never stands in for a source right behind a marker. */
  lemma NotMarkedSource(marker: string, source: string, target: string, rest: string)
    requires !(source <= target) && !(target <= source)
    ensures !(marker + source <= marker + target + rest)
  {
    assert marker + target + rest == marker + (target + rest);
    BehindMarker(marker, source, target + rest);
    PrefixesOfOne(source, target, target + rest);
  }

  /** After a pass its own pattern is not at the beginning of the text, whatever the
      target ends in. */
  lemma NotAtStart(s: string, marker: string, source: string, target: string)
    requires marker != "" && !(source <= target) && !(target <= source)
    requires !Contains((marker + source)[1..], marker)
    ensures !(marker + source <= Pass(s, marker, source, target))
  {
    var q := marker + source;
    if s != "" {
      if q <= s {
        NotMarkedSource(marker, source, target, Pass(s[|q|..], marker, source, target));
      } else {
        var r := Pass(s, marker, source, target);
        PrefixByHead(s, q);
        PrefixByHead(r, q);
        PrefixKept(s[1..], q[1..], marker, source, target);
      }
    }
  }

  /** A replaced piece brings in no occurrence of its own pattern past its start. */
  lemma PieceRemoves(marker: string, source: string, target: string, rest: string)
    requires marker != "" && marker[0] !in marker[1..] && NoOverlap(target, marker)
    requires !Contains(rest, marker + source) && !(marker + source <= marker + target + rest)
    ensures !Contains(marker + target + rest, marker + source)
  {
    hide NoOverlap;
    PrependTarget(target, rest, marker, source);
    assert (marker + source)[0] == marker[0];
    PrependForeign(marker[1..], target + rest, marker + source);
    assert (marker + target + rest)[1..] == marker[1..] + (target + rest);
  }

  /** A pass removes its own pattern. */
  lemma {:induction false} PassRemoves(s: string, marker: string, source: string, target: string)
    requires marker != "" && marker[0] !in marker[1..] && NoOverlap(target, marker)
    requires !(source <= target) && !(target <= source) && !Contains((marker + source)[1..], marker)
    ensures !Contains(Pass(s, marker, source, target), marker + source)
    decreases |s|
  {
    hide NoOverlap;
    var q := marker + source;
    NotAtStart(s, marker, source, target);
    if s == "" {
    } else if q <= s {
      PassRemoves(s[|q|..], marker, source, target);
      PieceRemoves(marker, source, target, Pass(s[|q|..], marker, source, target));
    } else {
      PassRemoves(s[1..], marker, source, target);
      assert Pass(s, marker, source, target)[1..] == Pass(s[1..], marker, source, target);
    }
  }

  /** A pass brings back no other pattern. */
  lemma {:induction false} PassKeepsClean(s: string, marker: string, source: string, target: string, other: string)
    requires marker != "" && other != "" && other[0] !in marker && NoOverlap(target, other)
    requires !Contains((other + source)[1..], marker) && !Contains(s, other + source)
    ensures !Contains(Pass(s, marker, source, target), other + source)
    decreases |s|
  {
    var (p, q) := (marker + source, other + source);
    var r := Pass(s, marker, source, target);
    if s == "" {
    } else if p <= s {
      var rest := Pass(s[|p|..], marker, source, target);
      SuffixClean(s, q, |p|);
      PassKeepsClean(s[|p|..], marker, source, target, other);
      PrependTarget(target, rest, other, source);
      PrependForeign(marker, target + rest, q);
      assert r == marker + (target + rest);
    } else {
      PassKeepsClean(s[1..], marker, source, target, other);
      assert r[1..] == Pass(s[1..], marker, source, target);
      PrefixByHead(s, q);
      PrefixByHead(r, q);
      PrefixKept(s[1..], q[1..], marker, source, target);
    }
  }

  /** After the "sip:" pass there is no "<sip:" before a source domain, even where the
      end of a target has formed a new "sip:" of its own. */
  lemma {:induction false} NoAngle(s: string, source: string, target: string)
    requires Plain(source) && Plain(target) && !(source <= target) && !(target <= source)
    ensures !Contains(Pass(s, "sip:", source, target), "<sip:" + source)
    decreases |s|
  {
    var (p, q) := ("sip:" + source, "<sip:" + source);
    var r := Pass(s, "sip:", source, target);
    if s == "" {
    } else if p <= s {
      var rest := Pass(s[|p|..], "sip:", source, target);
      NoAngle(s[|p|..], source, target);
      PrependForeign("sip:" + target, rest, q);
    } else {
      NoAngle(s[1..], source, target);
      assert r[1..] == Pass(s[1..], "sip:", source, target);
      MarkersDoNotNest(source);
      NotAtStart(s[1..], "sip:", source, target);
      PrefixByHead(r, q);
      assert q[1..] == p;
    }
  }

  // -------------------------------------------------------- the markers at hand

  /** No marker occurs in another marked source, nor in its own past the first character. */
  lemma MarkersDoNotNest(source: string)
    requires Plain(source)
    ensures !Contains(("@" + source)[1..], "@")
    ensures !Contains(("sip:" + source)[1..], "sip:")
    ensures !Contains((";domain=" + source)[1..], ";domain=")
    ensures !Contains(("@" + source)[1..], "sip:") && !Contains(("@" + source)[1..], ";domain=")
    ensures !Contains(("sip:" + source)[1..], ";domain=")
  {
    assert ("@" + source)[1..] == source;
    ContainsChars(source, "@", '@');
    ContainsChars(source, "sip:", ':');
    ContainsChars(source, ";domain=", ';');
    var (sip, domain) := (("sip:" + source)[1..], (";domain=" + source)[1..]);
    assert sip == "ip:" + source && domain == "domain=" + source;
    ContainsChars(sip, ";domain=", ';');
    ContainsChars(domain, ";domain=", ';');
    assert "ip:" + source == "ip" + (":" + source);
    ContainsChars(source, "sip:", ':');
    assert ":" + source == [':'] + source;
    PrependForeign("ip:", source, "sip:");
  }

  lemma {:induction false} ForeignMarker(target: string, marker: string)
    requires marker != "" && marker[0] !in target
    ensures NoOverlap(target, marker)
    decreases |target|
  {
    if target != "" {
      ForeignMarker(target[1..], marker);
    }
  }

  lemma TailEndsWith(s: string, u: string)
    requires s != ""
    ensures EndsWith(s[1..], u) ==> EndsWith(s, u)
  {
    if EndsWith(s[1..], u) {
      assert s[1..][|s| - 1 - |u|..] == s[|s| - |u|..];
    }
  }

  lemma PrefixOfSip(s: string)
    requires s != "" && s <= "sip:"
    ensures s == "s" || s == "si" || s == "sip" || s == "sip:"
  {
    assert forall i :: 0 <= i < |s| ==> s[i] == "sip:"[i];
    if |s| == 1 {
      assert s == ['s'];
    } else if |s| == 2 {
      assert s == ['s', 'i'];
    } else if |s| == 3 {
      assert s == ['s', 'i', 'p'];
    } else {
      assert s == ['s', 'i', 'p', ':'];
    }
  }

  lemma EndsWithItself(s: string)
    ensures EndsWith(s, s)
  {
    assert s[|s| - |s|..] == s;
  }

  lemma BeginsSip(s: string)
    requires s != ""
    ensures s <= "sip:" ==> EndsWith(s, "s") || EndsWith(s, "si") || EndsWith(s, "sip") || ':' in s
    ensures "sip:" <= s ==> ':' in s
  {
    hide EndsWith;
    EndsWithItself(s);
    if s <= "sip:" {
      PrefixOfSip(s);
      if s == "sip:" {
        assert s[3] == ':';
      }
    } else if "sip:" <= s {
      assert s[3] == ':';
    }
  }

  lemma {:induction false} SipMarker(target: string)
    requires Plain(target) && !EndsWith(target, "s") && !EndsWith(target, "si") && !EndsWith(target, "sip")
    ensures NoOverlap(target, "sip:")
    decreases |target|
  {
    hide EndsWith;
    if target != "" {
      TailEndsWith(target, "s");
      TailEndsWith(target, "si");
      TailEndsWith(target, "sip");
      SipMarker(target[1..]);
      BeginsSip(target);
    }
  }

  // ------------------------------------------------------------- completeness

  /** The "<sip:" pass never has anything to do. */
  lemma AnglePassIsIdle(message: string, source: string, target: string)
    requires Plain(source) && Plain(target) && !(source <= target) && !(target <= source)
    ensures var m := Pass(message, "sip:", source, target); Pass(m, "<sip:", source, target) == m
  {
    NoAngle(message, source, target);
    ReplaceNothing(Pass(message, "sip:", source, target), "<sip:" + source, "<sip:" + target);
  }

  lemma RewriteIsComplete(message: string, source: string, target: string)
    requires Plain(source) && Plain(target) && Separate(source, target)
    ensures !Leftover(Rewrite(message, source, target), source)
  {
    hide Pass, Contains, NoOverlap, EndsWith;
    MarkersDoNotNest(source);
    ForeignMarker(target, "@");
    ForeignMarker(target, ";domain=");
    SipMarker(target);
    var m1 := Pass(message, "@", source, target);
    PassRemoves(message, "@", source, target);
    var m2 := Pass(m1, "sip:", source, target);
    PassKeepsClean(m1, "sip:", source, target, "@");
    PassRemoves(m1, "sip:", source, target);
    AnglePassIsIdle(m1, source, target);
    PassKeepsClean(m2, ";domain=", source, target, "@");
    PassKeepsClean(m2, ";domain=", source, target, "sip:");
    PassRemoves(m2, ";domain=", source, target);
  }

  // ----------------------------------------------------- and when it is not

  lemma {:induction false} CharsKept(s: string, marker: string, source: string, target: string, c: char)
    requires marker != "" && c !in s && c !in marker && c !in target
    ensures c !in Pass(s, marker, source, target)
    decreases |s|
  {
    var p := marker + source;
    if s == "" {
    } else if p <= s {
      CharsKept(s[|p|..], marker, source, target, c);
    } else {
      CharsKept(s[1..], marker, source, target, c);
    }
  }

  /** A pass has nothing to do where one of its marker's characters is missing. */
  lemma IdlePass(s: string, marker: string, source: string, target: string, c: char)
    requires c in marker && c !in s
    ensures Pass(s, marker, source, target) == s
  {
    ContainsChars(s, marker + source, c);
    ReplaceNothing(s, marker + source, marker + target);
  }

  lemma OnlyTheSipPass(s: string, source: string, target: string)
    requires Plain(source) && Plain(target) && '@' !in s && '<' !in s && ';' !in s
    ensures Rewrite(s, source, target) == Pass(s, "sip:", source, target)
  {
    hide Pass;
    IdlePass(s, "@", source, target, '@');
    var m := Pass(s, "sip:", source, target);
    CharsKept(s, "sip:", source, target, '<');
    CharsKept(s, "sip:", source, target, ';');
    IdlePass(m, "<sip:", source, target, '<');
    IdlePass(m, ";domain=", source, target, ';');
  }

  lemma OnlyTheAtPass(source: string, target: string, rest: string)
    requires Plain(source) && Plain(target) && Plain(rest)
    ensures Rewrite("@" + source + rest, source, target) == "@" + target + rest
  {
    hide Pass;
    PassMatches("@", source, target, rest);
    IdlePass(rest, "@", source, target, '@');
    var m := "@" + target + rest;
    IdlePass(m, "sip:", source, target, ':');
    IdlePass(m, "<sip:", source, target, ':');
    IdlePass(m, ";domain=", source, target, ';');
  }

  /** What completes the end of the target to "sip:". */
  function Glue(target: string): string {
    if EndsWith(target, "s") then "ip:" else if EndsWith(target, "si") then "p:" else ":"
  }

  /** A text on which the rewriting fails. */
  function BadText(source: string, target: string): string {
    if source <= target then "@" + source
    else if target <= source then "@" + source + source[|target|..]
    else "sip:" + source + Glue(target) + source
  }

  lemma GlueForm(target: string, end: string, glue: string)
    requires EndsWith(target, end)
    ensures target + glue == target[..|target| - |end|] + (end + glue)
  {
    assert target == target[..|target| - |end|] + target[|target| - |end|..];
  }

  lemma GlueForms(target: string) returns (stem: string)
    requires EndsWith(target, "s") || EndsWith(target, "si") || EndsWith(target, "sip")
    ensures target + Glue(target) == stem + "sip:"
  {
    assert "s" + "ip:" == "sip:" && "si" + "p:" == "sip:" && "sip" + ":" == "sip:";
    var end := if EndsWith(target, "s") then "s" else if EndsWith(target, "si") then "si" else "sip";
    assert EndsWith(target, end) && end + Glue(target) == "sip:";
    stem := target[..|target| - |end|];
    hide EndsWith, Glue;
    GlueForm(target, end, Glue(target));
  }

  /** The end of the target and the glue behind it form a marker in front of a source
      that the pass has already gone by. */
  lemma GluedRewrite(source: string, target: string)
    requires Plain(source) && Plain(target) && !(source <= target) && !(target <= source) && !Separate(source, target)
    ensures var r := Rewrite(BadText(source, target), source, target);
            && Contains(r, "sip:" + source)
            && '@' !in r && '<' !in r && ';' !in r
  {
    hide Pass, Contains, EndsWith;
    var glue := Glue(target);
    var rest := glue + source;
    var message := BadText(source, target);
    assert message == "sip:" + source + rest;
    OnlyTheSipPass(message, source, target);
    PassMatches("sip:", source, target, rest);
    ContainsChars(source, "sip:" + source, ':');
    PrependForeign(glue, source, "sip:" + source);
    ReplacesNone(rest, source, target);
    var stem := GlueForms(target);
    assert "sip:" + target + rest == "sip:" + (target + glue) + source == ("sip:" + stem) + ("sip:" + source) + "";
    ContainsIn("sip:" + stem, "sip:" + source, "");
  }

  lemma ReplacesNone(s: string, source: string, target: string)
    requires !Contains(s, "sip:" + source)
    ensures Pass(s, "sip:", source, target) == s
  {
    ReplaceNothing(s, "sip:" + source, "sip:" + target);
  }

  lemma TextIsLeft(source: string, target: string)
    requires Plain(source) && Plain(target) && !Separate(source, target)
    ensures Leftover(Rewrite(BadText(source, target), source, target), source)
  {
    hide Rewrite, Contains, EndsWith;
    if source <= target {
      OnlyTheAtPass(source, target, "");
      assert "@" + source + "" == "@" + source && "@" + target + "" == "" + ("@" + source) + target[|source|..];
      ContainsIn("", "@" + source, target[|source|..]);
    } else if target <= source {
      OnlyTheAtPass(source, target, source[|target|..]);
      assert "@" + target + source[|target|..] == "" + ("@" + source) + "";
      ContainsIn("", "@" + source, "");
    } else {
      GluedRewrite(source, target);
    }
  }

  // ------------------------------------------------- the same inside a message

  /** A character that no pattern contains cuts a pass in two. */
  lemma {:induction false} PassSplits(x: string, cut: char, y: string, marker: string, source: string, target: string)
    requires marker != "" && cut !in marker && cut !in source
    ensures Pass(x + [cut] + y, marker, source, target)
            == Pass(x, marker, source, target) + [cut] + Pass(y, marker, source, target)
    decreases |x|
  {
    var (p, whole) := (marker + source, x + [cut] + y);
    if x == "" {
      assert whole == [cut] + y && whole[1..] == y;
      assert p[0] == marker[0] != whole[0];
    } else {
      NotAcross(p, x, cut, y);
      if p <= x {
        assert whole[|p|..] == x[|p|..] + [cut] + y;
        PassSplits(x[|p|..], cut, y, marker, source, target);
      } else {
        assert whole[1..] == x[1..] + [cut] + y;
        PassSplits(x[1..], cut, y, marker, source, target);
      }
    }
  }

  lemma {:induction false} NotAcross(p: string, x: string, cut: char, y: string)
    requires cut !in p
    ensures p <= x + [cut] + y <==> p <= x
    decreases |x|
  {
    var whole := x + [cut] + y;
    if p != "" {
      PrefixByHead(whole, p);
      if x == "" {
        assert whole[0] == cut != p[0];
      } else {
        PrefixByHead(x, p);
        assert whole[0] == x[0] && whole[1..] == x[1..] + [cut] + y;
        NotAcross(p[1..], x[1..], cut, y);
      }
    }
  }

  /** So it cuts the whole rewriting. */
  lemma RewriteSplits(x: string, cut: char, y: string, source: string, target: string)
    requires cut == '>' || cut == ' '
    requires cut !in source
    ensures Rewrite(x + [cut] + y, source, target) == Rewrite(x, source, target) + [cut] + Rewrite(y, source, target)
  {
    hide Pass;
    var (x1, y1) := (Pass(x, "@", source, target), Pass(y, "@", source, target));
    var (x2, y2) := (Pass(x1, "sip:", source, target), Pass(y1, "sip:", source, target));
    var (x3, y3) := (Pass(x2, "<sip:", source, target), Pass(y2, "<sip:", source, target));
    PassSplits(x, cut, y, "@", source, target);
    PassSplits(x1, cut, y1, "sip:", source, target);
    PassSplits(x2, cut, y2, "<sip:", source, target);
    PassSplits(x3, cut, y3, ";domain=", source, target);
  }

  lemma LeftoverBehind(front: string, s: string, source: string)
    ensures Leftover(s, source) ==> Leftover(front + s, source)
  {
    hide Contains;
    ContainsBehind(front, s, "@" + source);
    ContainsBehind(front, s, "sip:" + source);
    ContainsBehind(front, s, ";domain=" + source);
  }

  lemma {:induction false} ContainsBehind(front: string, s: string, p: string)
    ensures Contains(s, p) ==> Contains(front + s, p)
    decreases |front|
  {
    if front == "" {
      assert front + s == s;
    } else {
      assert (front + s)[1..] == front[1..] + s;
      ContainsBehind(front[1..], s, p);
    }
  }

  /** The messages that a mapping for this source applies to: SIP messages in which the
      code finds exactly this domain. */
  predicate IsFrom(message: string, source: string) {
    source != "" && IsSipMessage(message) && ExtractDomain(message) == source
  }

  /** The character that ends the domain in the message below. */
  function Cut(source: string): char {
    if '>' !in source then '>' else ' '
  }

  function Head(source: string): string {
    if '>' !in source then "ACK From:sip:=@" + source else "ACK sip:=@" + source
  }

  /** A message from the source domain on which the rewriting fails. */
  function BadMessage(source: string, target: string): string {
    Head(source) + [Cut(source)] + BadText(source, target)
  }

  lemma BadTextHasNoAddress(source: string, target: string)
    requires Plain(source) && Plain(target)
    ensures HasNoAddress(BadText(source, target))
  {
    if source <= target {
      assert ':' !in "@" + source;
    } else if target <= source {
      assert ':' !in "@" + source + source[|target|..];
    } else {
      assert '@' !in "sip:" + source + Glue(target) + source;
    }
  }

  lemma BadMessageIsFrom(source: string, target: string)
    requires Plain(source) && Plain(target) && Extractable(source)
    ensures IsFrom(BadMessage(source, target), source)
  {
    hide IsSipMessage, ExtractDomain, BadText;
    var text := BadText(source, target);
    BadTextHasNoAddress(source, target);
    if '>' !in source {
      assert BadMessage(source, target) == FromMessage(source, text);
      FromMessageExtracts(source, text);
    } else {
      assert BadMessage(source, target) == RequestMessage(source, text);
      RequestMessageExtracts(source, text);
    }
  }

  lemma CutIsForeign(source: string)
    requires Extractable(source)
    ensures Cut(source) !in source && (Cut(source) == '>' || Cut(source) == ' ')
  {}

  /** For every pair of domains outside the condition there is a message from the source
      domain that keeps a marked source domain. */
  lemma RewriteLeaves(source: string, target: string)
    requires Plain(source) && Plain(target) && Extractable(source) && !Separate(source, target)
    ensures IsFrom(BadMessage(source, target), source)
    ensures Leftover(Rewrite(BadMessage(source, target), source, target), source)
  {
    hide Rewrite, Leftover, Head, BadText, IsFrom, Separate, Cut;
    BadMessageIsFrom(source, target);
    CutIsForeign(source);
    TextIsLeft(source, target);
    RewriteSplits(Head(source), Cut(source), BadText(source, target), source, target);
    var front := Rewrite(Head(source), source, target) + [Cut(source)];
    LeftoverBehind(front, Rewrite(BadText(source, target), source, target), source);
  }

  /** The rewriting leaves no marked source domain in any message from it exactly when
      neither domain begins with the other and the target does not end in s, si or sip;
      but for sources that no message can be from. */
  lemma CompleteIff(source: string, target: string)
    requires Plain(source) && Plain(target)
    ensures (forall message :: IsFrom(message, source) ==> !Leftover(Rewrite(message, source, target), source))
            <==> Separate(source, target) || !Extractable(source)
  {
    if Separate(source, target) {
      hide Rewrite, Leftover, Separate, IsFrom;
      forall message ensures !Leftover(Rewrite(message, source, target), source) {
        RewriteIsComplete(message, source, target);
      }
    } else if Extractable(source) {
      hide Rewrite, Leftover, Separate, IsFrom, BadMessage;
      RewriteLeaves(source, target);
    } else {
      hide Rewrite, Leftover, ExtractDomain, IsSipMessage;
      assert forall message :: !IsFrom(message, source);
    }
  }

  /** The same of what a client's messages become on their way to the backend. */
  lemma BackendSeesNoneIff(mappings: map<string, string>, clientID: string, source: string)
    requires MappingKey(clientID, source) in mappings
    requires Plain(source) && Plain(mappings[MappingKey(clientID, source)])
    ensures (forall message :: IsFrom(message, source) ==> !Leftover(ToBackend(mappings, clientID, message), source))
            <==> Separate(source, mappings[MappingKey(clientID, source)]) || !Extractable(source)
  {
    hide Rewrite, Leftover, Separate, IsSipMessage, ExtractDomain;
    var target := mappings[MappingKey(clientID, source)];
    CompleteIff(source, target);
    forall message | IsFrom(message, source)
      ensures ToBackend(mappings, clientID, message) == Rewrite(message, source, target)
    {}
  }

  // ------------------------------------------------------------- idempotence

  lemma CleanStays(message: string, source: string, target: string)
    requires Plain(source) && Plain(target) && !(source <= target) && !(target <= source)
    requires !Leftover(message, source)
    ensures Rewrite(message, source, target) == message
  {
    AnglePassIsIdle(message, source, target);
    ReplaceNothing(message, "@" + source, "@" + target);
    ReplaceNothing(message, "sip:" + source, "sip:" + target);
    ReplaceNothing(message, ";domain=" + source, ";domain=" + target);
  }

  lemma SameDomain(message: string, source: string)
    ensures Rewrite(message, source, source) == message
  {
    ReplaceSame(message, "@" + source);
    ReplaceSame(message, "sip:" + source);
    ReplaceSame(message, "<sip:" + source);
    ReplaceSame(message, ";domain=" + source);
  }

  lemma SecondRunChangesText(source: string, target: string)
    requires Plain(source) && Plain(target) && source != target && !Separate(source, target)
    ensures var r := Rewrite(BadText(source, target), source, target); Rewrite(r, source, target) != r
  {
    hide Rewrite, Contains, EndsWith;
    if source <= target {
      var w := target[|source|..];
      OnlyTheAtPass(source, target, "");
      OnlyTheAtPass(source, target, w);
      assert "@" + source + "" == "@" + source && "@" + target + "" == "@" + source + w;
      assert |"@" + target + w| > |"@" + target + ""|;
    } else if target <= source {
      OnlyTheAtPass(source, target, source[|target|..]);
      OnlyTheAtPass(source, target, "");
      assert "@" + target + source[|target|..] == "@" + source + "";
      assert |"@" + target + ""| < |"@" + source + ""|;
    } else {
      GluedRewrite(source, target);
      var r := Rewrite(BadText(source, target), source, target);
      OnlyTheSipPass(r, source, target);
      BehindMarker("sip:", source, target);
      BehindMarker("sip:", target, source);
      ReplaceChanges(r, "sip:" + source, "sip:" + target);
    }
  }

  /** A pass to a longer target makes a text longer or leaves it alone, one to a shorter
      target makes it shorter or leaves it alone. */
  lemma {:induction false} PassLength(s: string, marker: string, source: string, target: string)
    requires marker != ""
    ensures var r := Pass(s, marker, source, target);
            && (|source| <= |target| ==> |s| <= |r|) && (|source| >= |target| ==> |s| >= |r|)
            && (|source| != |target| && |s| == |r| ==> r == s)
    decreases |s|
  {
    var p := marker + source;
    if s == "" {
    } else if p <= s {
      PassLength(s[|p|..], marker, source, target);
    } else {
      PassLength(s[1..], marker, source, target);
      assert s == [s[0]] + s[1..];
    }
  }

  lemma RewriteLength(s: string, source: string, target: string)
    ensures var r := Rewrite(s, source, target);
            && (|source| <= |target| ==> |s| <= |r|) && (|source| >= |target| ==> |s| >= |r|)
            && (|source| != |target| && |s| == |r| ==> r == s)
  {
    hide Pass;
    var m1 := Pass(s, "@", source, target);
    var m2 := Pass(m1, "sip:", source, target);
    var m3 := Pass(m2, "<sip:", source, target);
    PassLength(s, "@", source, target);
    PassLength(m1, "sip:", source, target);
    PassLength(m2, "<sip:", source, target);
    PassLength(m3, ";domain=", source, target);
  }

  /** A change behind the cut is a change of the whole. */
  lemma ChangeShows(x: string, cut: char, y: string, source: string, target: string)
    requires (cut == '>' || cut == ' ') && cut !in source && Rewrite(y, source, target) != y
    ensures Rewrite(x + [cut] + y, source, target) != x + [cut] + y
  {
    hide Rewrite;
    var (x', y') := (Rewrite(x, source, target), Rewrite(y, source, target));
    RewriteSplits(x, cut, y, source, target);
    RewriteLength(x, source, target);
    RewriteLength(y, source, target);
    if |x'| == |x| {
      assert (x' + [cut] + y')[|x| + 1..] == y' && (x + [cut] + y)[|x| + 1..] == y;
    } else {
      assert |x'| + |y'| != |x| + |y|;
    }
  }

  lemma SecondRunChanges(source: string, target: string)
    requires Plain(source) && Plain(target) && Extractable(source) && source != target && !Separate(source, target)
    ensures !RewritesOnce(BadMessage(source, target), source, target)
  {
    hide Rewrite, Head, BadText, Separate, Cut;
    var text := BadText(source, target);
    CutIsForeign(source);
    SecondRunChangesText(source, target);
    RewriteSplits(Head(source), Cut(source), text, source, target);
    ChangeShows(Rewrite(Head(source), source, target), Cut(source), Rewrite(text, source, target), source, target);
  }

  predicate RewritesOnce(message: string, source: string, target: string) {
    Rewrite(Rewrite(message, source, target), source, target) == Rewrite(message, source, target)
  }

  /** Rewriting twice is rewriting once, for every message from the source domain, exactly
      when the two domains are the same or the rewriting is complete; but for sources that
      no message can be from. */
  lemma IdempotentIff(source: string, target: string)
    requires Plain(source) && Plain(target)
    ensures (forall message :: IsFrom(message, source) ==> RewritesOnce(message, source, target))
            <==> source == target || Separate(source, target) || !Extractable(source)
  {
    if source == target {
      hide IsFrom, Separate, Rewrite;
      forall message ensures RewritesOnce(message, source, target) {
        SameDomain(message, source);
      }
    } else if Separate(source, target) {
      hide IsFrom, Rewrite, Leftover;
      forall message ensures RewritesOnce(message, source, target) {
        RewriteIsComplete(message, source, target);
        CleanStays(Rewrite(message, source, target), source, target);
      }
    } else if Extractable(source) {
      hide IsFrom, BadMessage, RewritesOnce, Separate;
      BadMessageIsFrom(source, target);
      SecondRunChanges(source, target);
    } else {
      hide RewritesOnce, ExtractDomain, IsSipMessage;
      assert forall message :: !IsFrom(message, source);
    }
  }

  // ----------------------------------------------------------- which messages

  function MappingKey(clientID: string, domain: string): string {
    clientID + ":" + domain
  }

  /** What goes to the backend: the client's mapping for the domain found in the message,
      if there is one, is applied. */
  function ToBackend(mappings: map<string, string>, clientID: string, message: string): string {
    var source := ExtractDomain(message);
    var key := MappingKey(clientID, source);
    if !IsSipMessage(message) || source == "" || key !in mappings then message
    else Rewrite(message, source, mappings[key])
  }

  /** Domains without a colon keep clients apart, whatever their IDs contain. */
  lemma {:induction false} KeysAreSeparate(client1: string, domain1: string, client2: string, domain2: string)
    requires ':' !in domain1 && ':' !in domain2
    requires MappingKey(client1, domain1) == MappingKey(client2, domain2)
    ensures client1 == client2 && domain1 == domain2
    decreases |domain1|
  {
    var (k1, k2) := (MappingKey(client1, domain1), MappingKey(client2, domain2));
    assert k1[|k1| - 1] == (if domain1 == "" then ':' else domain1[|domain1| - 1]);
    assert k2[|k2| - 1] == (if domain2 == "" then ':' else domain2[|domain2| - 1]);
    if domain1 == "" {
      assert client1 == k1[..|k1| - 1] && client2 == k2[..|k2| - 1];
    } else {
      var (d1, d2) := (domain1[..|domain1| - 1], domain2[..|domain2| - 1]);
      assert MappingKey(client1, d1) == k1[..|k1| - 1] && MappingKey(client2, d2) == k2[..|k2| - 1];
      KeysAreSeparate(client1, d1, client2, d2);
      assert domain1 == d1 + [domain1[|domain1| - 1]] && domain2 == d2 + [domain2[|domain2| - 1]];
    }
  }

  /** Two different domains share a key, for some clients, exactly when one of them ends
      in a colon and the other, as a host and its port do. */
  lemma KeysCollideIff(domain1: string, domain2: string)
    requires domain1 != domain2
    ensures (exists client1, client2 :: MappingKey(client1, domain1) == MappingKey(client2, domain2))
            <==> EndsWith(domain1, ":" + domain2) || EndsWith(domain2, ":" + domain1)
  {
    if client1, client2 :| MappingKey(client1, domain1) == MappingKey(client2, domain2) {
      KeyEnds(client1, domain1, client2, domain2);
      KeyEnds(client2, domain2, client1, domain1);
    }
    if EndsWith(domain1, ":" + domain2) {
      KeysMeet(domain1, domain2);
    } else if EndsWith(domain2, ":" + domain1) {
      KeysMeet(domain2, domain1);
    }
  }

  lemma KeyEnds(client1: string, domain1: string, client2: string, domain2: string)
    requires MappingKey(client1, domain1) == MappingKey(client2, domain2) && domain1 != domain2
    ensures |domain1| >= |domain2| ==> EndsWith(domain1, ":" + domain2)
  {
    var key := MappingKey(client1, domain1);
    assert key == client1 + ":" + domain1 == client2 + ":" + domain2;
    assert key[|key| - |domain1|..] == domain1 && key[|key| - |domain2|..] == domain2;
    if |domain1| > |domain2| {
      var n := |domain2| + 1;
      assert key[|key| - n..] == ":" + domain2;
      assert domain1[|domain1| - n..] == key[|key| - n..];
    }
  }

  lemma KeysMeet(domain1: string, domain2: string)
    requires EndsWith(domain1, ":" + domain2)
    ensures exists client1, client2 :: MappingKey(client1, domain1) == MappingKey(client2, domain2)
  {
    var stem := domain1[..|domain1| - |domain2| - 1];
    assert domain1 == stem + (":" + domain2);
    assert MappingKey("", domain1) == MappingKey(":" + stem, domain2);
  }

  /** The domains that the server itself maps for every client. */
  const SERVER_DOMAINS: set<string> := {"platform.qalqul.io", "businessoperations.qalqul.io"}

  lemma ServerDomainsArePlain(domain: string)
    requires domain in SERVER_DOMAINS
    ensures ':' !in domain
  {}

  /** Every mapping is one that the server sets, for whatever client IDs. */
  ghost predicate SetByServer(mappings: map<string, string>) {
    forall key :: key in mappings ==>
        exists client, domain :: domain in SERVER_DOMAINS && key == MappingKey(client, domain)
  }

  /** So the server's own mappings never collide. */
  lemma ServerKeysAreSeparate(client1: string, domain1: string, client2: string, domain2: string)
    requires domain1 in SERVER_DOMAINS && domain2 in SERVER_DOMAINS
    ensures MappingKey(client1, domain1) == MappingKey(client2, domain2) <==> client1 == client2 && domain1 == domain2
  {
    ServerDomainsArePlain(domain1);
    ServerDomainsArePlain(domain2);
    if MappingKey(client1, domain1) == MappingKey(client2, domain2) {
      KeysAreSeparate(client1, domain1, client2, domain2);
    }
  }

  const SERVER_TARGETS: set<string> := {"qa.qalqul.io", "businessoperations.qalqul.io"}

  lemma EndsAlike(s: string, p: string)
    requires p != ""
    ensures EndsWith(s, p) ==> s != "" && s[|s| - 1] == p[|p| - 1]
  {
    if EndsWith(s, p) {
      assert s[|s| - |p|..][|p| - 1] == s[|s| - 1];
    }
  }

  lemma PlainAppend(a: string, b: string)
    requires Plain(a) && Plain(b)
    ensures Plain(a + b)
  {}

  lemma PlatformIsPlain()
    ensures Plain("platform.qalqul.io")
  {
    assert Plain("platform") && Plain(".qalqul.io");
    hide Plain;
    PlainAppend("platform", ".qalqul.io");
    assert "platform" + ".qalqul.io" == "platform.qalqul.io";
  }

  lemma BusinessParts()
    ensures "business" + "operations" + ".qalqul.io" == "businessoperations.qalqul.io"
  {}

  lemma BusinessWord()
    ensures Plain("business")
  {}

  lemma OperationsWord()
    ensures Plain("operations")
  {}

  lemma DomainWord()
    ensures Plain(".qalqul.io")
  {}

  lemma BusinessPartsArePlain()
    ensures Plain("business" + "operations" + ".qalqul.io")
  {
    BusinessWord();
    OperationsWord();
    DomainWord();
    hide Plain;
    PlainAppend("business", "operations");
    PlainAppend("business" + "operations", ".qalqul.io");
  }

  lemma BusinessIsPlain()
    ensures Plain("businessoperations.qalqul.io")
  {
    hide Plain;
    BusinessPartsArePlain();
    BusinessParts();
  }

  lemma QaIsPlain()
    ensures Plain("qa.qalqul.io")
  {}

  lemma ServerDomainForms(domain: string)
    requires domain in SERVER_DOMAINS || domain in SERVER_TARGETS
    ensures Plain(domain) && domain[|domain| - 1] == 'o'
    ensures domain[0] == if domain == "platform.qalqul.io" then 'p' else if domain == "qa.qalqul.io" then 'q' else 'b'
  {
    PlatformIsPlain();
    BusinessIsPlain();
    QaIsPlain();
    hide Plain;
    assert "platform.qalqul.io"[17] == 'o' && "businessoperations.qalqul.io"[27] == 'o' && "qa.qalqul.io"[11] == 'o';
  }

  /** With the domains that the server maps and the targets it maps them to, the
      rewriting is complete or has nothing to do. */
  lemma ServerMappingsAreSeparate(source: string, target: string)
    requires source in SERVER_DOMAINS && target in SERVER_TARGETS
    ensures Plain(source) && Plain(target) && (source == target || Separate(source, target))
  {
    hide EndsWith, Plain;
    ServerDomainForms(source);
    ServerDomainForms(target);
    EndsAlike(target, "s");
    EndsAlike(target, "si");
    EndsAlike(target, "sip");
    assert source != target ==> source[0] != target[0];
  }

  lemma ColonSplitsOnce(client1: string, domain1: string, host: string, port: string)
    requires ':' !in domain1 && ':' !in port && MappingKey(client1, domain1) == MappingKey(host, port)
    ensures domain1 == port
  {
    KeysAreSeparate(client1, domain1, host, port);
  }

  /** And a message whose source domain comes with a port finds none of them: it goes to
      the backend as it is. */
  lemma PortIsNotMapped(mappings: map<string, string>, clientID: string, message: string, host: string, port: string)
    requires SetByServer(mappings) && ':' !in port && port !in SERVER_DOMAINS
    requires ExtractDomain(message) == host + ":" + port
    ensures ToBackend(mappings, clientID, message) == message
  {
    hide IsSipMessage, Rewrite, ExtractDomain;
    var key := MappingKey(clientID, host + ":" + port);
    assert key == MappingKey(clientID + ":" + host, port);
    if key in mappings {
      var client, domain :| domain in SERVER_DOMAINS && key == MappingKey(client, domain);
      ServerDomainsArePlain(domain);
      ColonSplitsOnce(client, domain, clientID + ":" + host, port);
    }
  }

  class DomainRewriteProxy {
    var mappings: map<string, string>

    constructor ()
      ensures mappings == map[]
    {
      mappings := map[];
    }

    /** Only this client's messages from this domain are affected, if no domain in use
        has a colon. */
    method SetDomainMapping(clientID: string, platformDomain: string, backendDomain: string)
      modifies this
      ensures mappings == old(mappings)[MappingKey(clientID, platformDomain) := backendDomain]
      ensures forall client, message ::
                (':' !in platformDomain && ':' !in ExtractDomain(message)
                 && (client, ExtractDomain(message)) != (clientID, platformDomain)) ==>
                ToBackend(mappings, client, message) == ToBackend(old(mappings), client, message)
    {
      hide IsSipMessage, Rewrite, ExtractDomain;
      var key := clientID + ":" + platformDomain;
      mappings := mappings[key := backendDomain];
      forall client, domain | ':' !in platformDomain && ':' !in domain && (client, domain) != (clientID, platformDomain)
        ensures MappingKey(client, domain) != MappingKey(clientID, platformDomain)
      {
        if MappingKey(client, domain) == MappingKey(clientID, platformDomain) {
          KeysAreSeparate(client, domain, clientID, platformDomain);
        }
      }
    }

    method RewriteClientToBackend(clientID: string, message: string) returns (r: string)
      ensures r == ToBackend(mappings, clientID, message)
    {
      hide IsSipMessage, ExtractDomain;
      if !IsSipMessage(message) {
        return message;
      }
      var sourceDomain := ExtractDomain(message);
      if sourceDomain == "" {
        return message;
      }
      var key := clientID + ":" + sourceDomain;
      if key !in mappings {
        return message;
      }
      var targetDomain := mappings[key];
      r := message;
      r := Pass(r, "@", sourceDomain, targetDomain);
      r := Pass(r, "sip:", sourceDomain, targetDomain);
      r := Pass(r, "<sip:", sourceDomain, targetDomain);
      r := Pass(r, ";domain=", sourceDomain, targetDomain);
    }
  }
}
