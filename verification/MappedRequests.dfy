/** What the backend gets to see of a request from a mapped domain: the same request with
    the target domain in its request line and From header. */
module MappedRequests {
  import opened GoStrings
  import opened SipExtraction
  import opened DomainRewrite

  /** A request address; without a user part, as REGISTER has it, it is the bare domain. */
  function Address(user: string, domain: string): string {
    "sip:" + (if user == "" then domain else user + "@" + domain)
  }

  function CallerAddress(caller: string, domain: string): string {
    "<sip:" + caller + "@" + domain
  }

  /** The start of the second line, as far as the address in it. */
  function Second(display: string): string {
    "SIP/2.0\r\nFrom:" + display
  }

  /** A request whose From header comes second, with or without a display name. */
  function Request(method_: string, user: string, domain: string, display: string, caller: string, rest: string): string
  {
    var second := Second(display) + " " + (CallerAddress(caller, domain) + ">" + rest);
    method_ + " " + (Address(user, domain) + " " + second)
  }

  /** A user part that holds no marked source domain itself. */
  predicate UserPart(user: string, source: string) {
    && '@' !in user
    && !Contains("sip:" + user, "sip:" + source) && !Contains(user, ";domain=" + source)
  }

  // ------------------------------------------------------- each piece of it alone

  lemma {:induction false} PassBehind(front: string, s: string, marker: string, source: string, target: string)
    requires marker != "" && marker[0] !in front
    ensures Pass(front + s, marker, source, target) == front + Pass(s, marker, source, target)
    decreases |front|
  {
    if front == "" {
      assert front + s == s;
    } else {
      assert (front + s)[1..] == front[1..] + s && (front + s)[0] == front[0];
      assert (marker + source)[0] == marker[0];
      PassBehind(front[1..], s, marker, source, target);
    }
  }

  lemma RewriteBehind(front: string, s: string, source: string, target: string)
    requires '@' !in front && 's' !in front && '<' !in front && ';' !in front
    ensures Rewrite(front + s, source, target) == front + Rewrite(s, source, target)
  {
    hide Pass;
    var s1 := Pass(s, "@", source, target);
    var s2 := Pass(s1, "sip:", source, target);
    var s3 := Pass(s2, "<sip:", source, target);
    PassBehind(front, s, "@", source, target);
    PassBehind(front, s1, "sip:", source, target);
    PassBehind(front, s2, "<sip:", source, target);
    PassBehind(front, s3, ";domain=", source, target);
  }

  lemma {:induction false} NoneAcross(x: string, cut: char, y: string, p: string)
    requires p != "" && cut !in p && !Contains(x, p) && !Contains(y, p)
    ensures !Contains(x + [cut] + y, p)
    decreases |x|
  {
    NotAcross(p, x, cut, y);
    if x == "" {
      assert (x + [cut] + y)[1..] == y;
    } else {
      assert (x + [cut] + y)[1..] == x[1..] + [cut] + y;
      NoneAcross(x[1..], cut, y, p);
    }
  }

  lemma {:induction false} NoShorterNoLonger(s: string, c: char, p: string)
    requires !Contains(s, p)
    ensures !Contains(s, [c] + p)
    decreases |s|
  {
    if s != "" {
      NoShorterNoLonger(s[1..], c, p);
      PrefixByHead(s, [c] + p);
      assert ([c] + p)[1..] == p;
    }
  }

  /** A pattern without an at-sign is not in a front that lacks it, an at-sign and a domain
      that lacks one of its characters. */
  lemma NotInAddress(front: string, target: string, p: string, c: char)
    requires '@' !in p && c in p && c !in target && !Contains(front, p)
    ensures !Contains(front + "@" + target, p)
  {
    ContainsChars(target, p, c);
    NoneAcross(front, '@', target, p);
  }

  lemma PassOfNothing(marker: string, source: string, target: string)
    requires marker != ""
    ensures Pass("", marker, source, target) == ""
  {}

  lemma AddressRewritten(front: string, source: string, target: string)
    requires Plain(source) && Plain(target) && '@' !in front
    requires !Contains(front, "sip:" + source) && !Contains(front, ";domain=" + source)
    ensures Rewrite(front + "@" + source, source, target) == front + "@" + target
  {
    hide Contains, Replace;
    var m := front + "@" + target;
    assert front + "@" + source == front + ("@" + source + "");
    PassBehind(front, "@" + source + "", "@", source, target);
    PassMatches("@", source, target, "");
    PassOfNothing("@", source, target);
    assert front + ("@" + target + "") == m;
    NotInAddress(front, target, "sip:" + source, ':');
    NoShorterNoLonger(m, '<', "sip:" + source);
    assert "<" + ("sip:" + source) == "<sip:" + source;
    NotInAddress(front, target, ";domain=" + source, ';');
    ReplaceNothing(m, "sip:" + source, "sip:" + target);
    ReplaceNothing(m, "<sip:" + source, "<sip:" + target);
    ReplaceNothing(m, ";domain=" + source, ";domain=" + target);
  }

  lemma DomainRewritten(source: string, target: string)
    requires Plain(source) && Plain(target)
    ensures Rewrite("sip:" + source, source, target) == "sip:" + target
  {
    hide Pass, Replace;
    PlainText(source);
    OnlyTheSipPass("sip:" + source, source, target);
    PassMatches("sip:", source, target, "");
    PassOfNothing("sip:", source, target);
    assert "sip:" + source + "" == "sip:" + source && "sip:" + target + "" == "sip:" + target;
  }

  lemma PlainText(source: string)
    requires Plain(source)
    ensures '@' !in "sip:" + source && '<' !in "sip:" + source && ';' !in "sip:" + source
  {}

  lemma WithSip(user: string, source: string)
    requires UserPart(user, source)
    ensures '@' !in "sip:" + user && !Contains("sip:" + user, "sip:" + source)
    ensures !Contains("sip:" + user, ";domain=" + source)
  {
    hide Contains;
    PrependForeign("sip:", user, ";domain=" + source);
  }

  lemma WithAngle(user: string, source: string)
    requires UserPart(user, source)
    ensures '@' !in "<sip:" + user && !Contains("<sip:" + user, "sip:" + source)
    ensures !Contains("<sip:" + user, ";domain=" + source)
  {
    hide Contains;
    WithSip(user, source);
    assert "<" + ("sip:" + user) == "<sip:" + user;
    PrependForeign("<", "sip:" + user, "sip:" + source);
    PrependForeign("<", "sip:" + user, ";domain=" + source);
  }

  lemma RequestAddressRewritten(user: string, source: string, target: string)
    requires Plain(source) && Plain(target) && UserPart(user, source)
    ensures Rewrite(Address(user, source), source, target) == Address(user, target)
  {
    hide Rewrite, Plain, UserPart;
    if user == "" {
      DomainRewritten(source, target);
    } else {
      WithSip(user, source);
      AddressRewritten("sip:" + user, source, target);
      assert "sip:" + (user + "@" + source) == "sip:" + user + "@" + source;
      assert "sip:" + (user + "@" + target) == "sip:" + user + "@" + target;
    }
  }

  lemma CallerAddressRewritten(caller: string, source: string, target: string)
    requires Plain(source) && Plain(target) && UserPart(caller, source)
    ensures Rewrite(CallerAddress(caller, source), source, target) == CallerAddress(caller, target)
  {
    hide Rewrite, Plain, UserPart;
    WithAngle(caller, source);
    AddressRewritten("<sip:" + caller, source, target);
  }

  lemma SecondRewritten(display: string, source: string, target: string)
    ensures Rewrite(Second(display), source, target) == Second(Rewrite(display, source, target))
  {
    hide Rewrite;
    RewriteBehind("SIP/2.0\r\nFrom:", display, source, target);
  }

  lemma MethodRewritten(method_: string, source: string, target: string)
    requires method_ in SIP_METHODS
    ensures Rewrite(method_, source, target) == method_
  {
    hide Rewrite;
    MethodsAreCapitals(method_);
    hide SIP_METHODS;
    RewriteBehind(method_, "", source, target);
    RewriteOfNothing(source, target);
    assert method_ + "" == method_;
  }

  lemma RewriteOfNothing(source: string, target: string)
    ensures Rewrite("", source, target) == ""
  {}

  /** The whole request, piece by piece: each piece ends in a space or '>'. */
  lemma RequestRewritten(method_: string, user: string, source: string, target: string, display: string,
                         caller: string, rest: string)
    requires method_ in SIP_METHODS && Plain(source) && Plain(target) && ' ' !in source && '>' !in source
    requires UserPart(user, source) && UserPart(caller, source)
    ensures Rewrite(Request(method_, user, source, display, caller, rest), source, target)
            == Request(method_, user, target, Rewrite(display, source, target), caller, Rewrite(rest, source, target))
  {
    hide Rewrite, Plain, UserPart, SIP_METHODS, Address, CallerAddress, Second;
    var from := CallerAddress(caller, source) + ">" + rest;
    var second := Second(display) + " " + from;
    var uri := Address(user, source) + " " + second;
    MethodRewritten(method_, source, target);
    RequestAddressRewritten(user, source, target);
    SecondRewritten(display, source, target);
    CallerAddressRewritten(caller, source, target);
    RewriteSplits(method_, ' ', uri, source, target);
    RewriteSplits(Address(user, source), ' ', second, source, target);
    RewriteSplits(Second(display), ' ', from, source, target);
    RewriteSplits(CallerAddress(caller, source), '>', rest, source, target);
  }

  // ------------------------------------------------------ the domain found in it

  /** The first line and its end. */
  function First(method_: string, user: string, domain: string): string {
    method_ + " " + (Address(user, domain) + " SIP/2.0\r\n")
  }

  lemma RequestForms(method_: string, user: string, domain: string, display: string, caller: string, rest: string)
    ensures Request(method_, user, domain, display, caller, rest)
            == First(method_, user, domain) + "From:" + (display + " <") + "sip:" + caller + "@" + domain + (">" + rest)
  {
    var m := method_ + " " + Address(user, domain);
    SecondForm(display);
    CallerForm(caller, domain, rest);
    FirstForm(method_, user, domain);
    hide Address, Second, CallerAddress, First;
    assert Request(method_, user, domain, display, caller, rest)
        == m + (" " + Second(display)) + " " + (CallerAddress(caller, domain) + ">" + rest);
    Regroup(m, " SIP/2.0\r\n", "From:", display, "sip:", caller, "@", domain, ">" + rest);
  }

  lemma Regroup(m: string, x: string, f: string, d: string, s: string, c: string, a: string, h: string, t: string)
    ensures m + (x + f + d) + " " + ("<" + s + c + a + h + t) == (m + x) + f + (d + " <") + s + c + a + h + t
  {
    assert d + " " + "<" == d + " <";
  }

  lemma FirstForm(method_: string, user: string, domain: string)
    ensures First(method_, user, domain) == (method_ + " " + Address(user, domain)) + " SIP/2.0\r\n"
  {}

  lemma SecondForm(display: string)
    ensures " " + Second(display) == " SIP/2.0\r\n" + "From:" + display
  {}

  lemma CallerForm(caller: string, domain: string, rest: string)
    ensures CallerAddress(caller, domain) + ">" + rest == "<" + "sip:" + caller + "@" + domain + (">" + rest)
  {}

  lemma NoColonHere(source: string, line: string)
    requires Plain(source) && ':' !in line
    ensures ':' !in "@" + source + ">" + line && ':' !in "@" + source + " SIP/2.0\r\n"
    ensures ':' !in source + " SIP/2.0\r\n"
  {}

  /** The first line has no From header in it, whatever the method. */
  lemma NoFromInFirst(method_: string, user: string, source: string)
    requires method_ in SIP_METHODS && Plain(source) && !Contains(user, "From:")
    ensures !Contains(First(method_, user, source), "From:")
  {
    hide Contains;
    MethodsAreCapitals(method_);
    NoColonHere(source, "");
    hide Plain, SIP_METHODS;
    var tail := " SIP/2.0\r\n";
    if user == "" {
      ContainsChars(source + tail, "From:", ':');
      PrependForeign(method_ + " sip:", source + tail, "From:");
      assert First(method_, user, source) == method_ + " sip:" + (source + tail);
    } else {
      AppendForeign(user, "@" + source + tail, "From:");
      PrependForeign(method_ + " sip:", user + ("@" + source + tail), "From:");
      assert First(method_, user, source) == method_ + " sip:" + (user + ("@" + source + tail));
    }
  }

  /** The domain that the proxy looks up is the one of the From header. */
  lemma RequestExtracts(method_: string, user: string, source: string, display: string, caller: string,
                        line: string, more: string)
    requires method_ in SIP_METHODS && Plain(source) && source != "" && '>' !in source
    requires !Contains(user, "From:") && '\r' !in display && '\n' !in display && caller != "" && '@' !in caller
    requires ':' !in line && (more == "" || more[0] == '\r' || more[0] == '\n')
    ensures ExtractDomain(Request(method_, user, source, display, caller, line + more)) == source
  {
    hide ExtractDomain, Contains, Request, First, LastSip;
    NoFromInFirst(method_, user, source);
    NoColonHere(source, line);
    NoAddressOnLine("@" + source + ">" + line, more);
    assert "@" + source + ">" + line + more == "@" + source + (">" + (line + more));
    RequestForms(method_, user, source, display, caller, line + more);
    FromHeaderExtracts(First(method_, user, source), display + " <", caller, source, ">" + (line + more));
  }

  /** Every request, with any of the six methods and any user part, that names the domain
      of one of the client's mappings goes to the backend with the target in its place, in
      the request line and in the From header; the literal passes go over the display name
      and the rest of the message too. */
  lemma MappedRequestIsRewritten(mappings: map<string, string>, clientID: string, target: string, method_: string,
                                 user: string, source: string, display: string, caller: string,
                                 line: string, more: string)
    requires MappingKey(clientID, source) in mappings && mappings[MappingKey(clientID, source)] == target
    requires Plain(source) && Plain(target) && source != "" && ' ' !in source && '>' !in source
    requires method_ in SIP_METHODS && UserPart(user, source) && !Contains(user, "From:")
    requires UserPart(caller, source) && caller != "" && '\r' !in display && '\n' !in display
    requires ':' !in line && (more == "" || more[0] == '\r' || more[0] == '\n')
    ensures ToBackend(mappings, clientID, Request(method_, user, source, display, caller, line + more))
            == Request(method_, user, target, Rewrite(display, source, target), caller,
                       Rewrite(line + more, source, target))
  {
    hide ExtractDomain, IsSipMessage, Contains, Rewrite, Address, Second, CallerAddress;
    RequestExtracts(method_, user, source, display, caller, line, more);
    RequestRewritten(method_, user, source, target, display, caller, line + more);
    MethodIsSip(method_, Address(user, source) + " " + (Second(display) + " "
                                                        + (CallerAddress(caller, source) + ">" + (line + more))));
  }

  /** Anything that does not start with one of the methods, or that comes from a domain the
      client has no mapping for, goes to the backend as it is. */
  lemma OthersGoUnchanged(mappings: map<string, string>, clientID: string, message: string)
    ensures (forall method_ :: method_ in SIP_METHODS ==> !(method_ + " " <= message))
            || MappingKey(clientID, ExtractDomain(message)) !in mappings ==>
              ToBackend(mappings, clientID, message) == message
  {
    hide IsSipMessage, ExtractDomain, Rewrite, SIP_METHODS;
    IsSipMessageIff(message);
  }
}
