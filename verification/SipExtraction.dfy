/** Which messages are rewritten, and for which domain: the request line decides
    whether a message is SIP, and two patterns find the domain in it. Each pattern is
    written out as the search that its leftmost, longest match amounts to. */
module SipExtraction {
  import opened GoStrings
  import opened Ttl

  function FirstLine(message: string): string {
    if message == "" || "\r\n" <= message then "" else [message[0]] + FirstLine(message[1..])
  }

  /** Six of the ten methods that the request-line pattern of the rewriting knows. */
  predicate IsSipMessage(message: string) {
    var line := FirstLine(message);
    "REGISTER " <= line || "INVITE " <= line || "OPTIONS " <= line || "BYE " <= line || "CANCEL " <= line
      || "ACK " <= line
  }

  /** The text before the first of these characters. */
  function UpTo(s: string, stops: string): (r: string)
    ensures forall c :: c in r ==> c !in stops
  {
    if s == "" || s[0] in stops then "" else [s[0]] + UpTo(s[1..], stops)
  }

  /** `([^@]+)@([^stops]+)` at the start of the text: the second group. */
  function AtDomain(s: string, stops: string): (r: Option<string>)
    ensures r.Some? ==> r.value != "" && forall c :: c in r.value ==> c !in stops
  {
    var i := IndexOf(s, '@');
    if i == 0 || i == |s| then None
    else
      var domain := UpTo(s[i + 1..], stops);
      if domain == "" then None else Some(domain)
  }

  /** `[^\r\n]*sip:` and then the address: the last "sip:" of the line that has one. */
  function LastSip(s: string): (r: Option<string>)
    ensures r.Some? ==> r.value != "" && '>' !in r.value
    decreases |s|
  {
    if s == "" then None
    else
      var later := if s[0] == '\r' || s[0] == '\n' then None else LastSip(s[1..]);
      if later.Some? then later else if "sip:" <= s then AtDomain(s[4..], ";>") else None
  }

  /** The first "From:", anywhere in the message, that such an address follows. */
  function FromDomain(s: string): (r: Option<string>)
    ensures r.Some? ==> r.value != "" && '>' !in r.value
    decreases |s|
  {
    if s == "" then None
    else if "From:" <= s && LastSip(s[5..]).Some? then LastSip(s[5..])
    else FromDomain(s[1..])
  }

  function Capitals(s: string): (n: nat)
    ensures n <= |s|
  {
    if s == "" || !('A' <= s[0] <= 'Z') then 0 else Capitals(s[1..]) + 1
  }

  /** `^[A-Z]+ sip:` and then the address, at the start of the message. */
  function RequestDomain(s: string): (r: Option<string>)
    ensures r.Some? ==> r.value != "" && ' ' !in r.value
  {
    var rest := s[Capitals(s)..];
    if rest != s && " sip:" <= rest then AtDomain(rest[5..], ";: ") else None
  }

  /** extractDomainFromSIP: "" if neither pattern matches. */
  function ExtractDomain(message: string): (domain: string)
    ensures domain == "" || '>' !in domain || ' ' !in domain
  {
    var from := FromDomain(message);
    if from.Some? then from.value
    else
      var request := RequestDomain(message);
      if request.Some? then request.value else ""
  }

  // ------------------------------------------------------------ which are SIP

  const SIP_METHODS: set<string> := {"REGISTER", "INVITE", "OPTIONS", "BYE", "CANCEL", "ACK"}

  lemma {:induction false} FirstLineStarts(message: string, p: string)
    requires '\r' !in p
    ensures p <= FirstLine(message) <==> p <= message
    decreases |message|
  {
    if p != "" && message != "" {
      if "\r\n" <= message {
        assert message[0] == '\r' != p[0];
      } else {
        FirstLineStarts(message[1..], p[1..]);
        ByHead(message, p);
        ByHead(FirstLine(message), p);
      }
    }
  }

  lemma ByHead(s: string, p: string)
    requires s != "" && p != ""
    ensures p <= s <==> p[0] == s[0] && p[1..] <= s[1..]
  {
    if p[0] == s[0] && p[1..] <= s[1..] {
      assert p == [p[0]] + p[1..] && s == [s[0]] + s[1..];
    }
  }

  /** A message is taken for SIP exactly when it starts with one of the six methods and a
      space. */
  lemma IsSipMessageIff(message: string)
    ensures IsSipMessage(message) <==> exists method_ :: method_ in SIP_METHODS && method_ + " " <= message
  {
    hide FirstLine;
    FirstLineStarts(message, "REGISTER ");
    FirstLineStarts(message, "INVITE ");
    FirstLineStarts(message, "OPTIONS ");
    FirstLineStarts(message, "BYE ");
    FirstLineStarts(message, "CANCEL ");
    FirstLineStarts(message, "ACK ");
    MethodsWithSpace();
    if IsSipMessage(message) {
      var method_ := if "REGISTER " <= message then "REGISTER" else if "INVITE " <= message then "INVITE"
                     else if "OPTIONS " <= message then "OPTIONS" else if "BYE " <= message then "BYE"
                     else if "CANCEL " <= message then "CANCEL" else "ACK";
      assert method_ in SIP_METHODS && method_ + " " <= message;
    }
  }

  lemma MethodsWithSpace()
    ensures "REGISTER" + " " == "REGISTER " && "INVITE" + " " == "INVITE " && "OPTIONS" + " " == "OPTIONS "
    ensures "BYE" + " " == "BYE " && "CANCEL" + " " == "CANCEL " && "ACK" + " " == "ACK "
  {}

  lemma MethodIsSip(method_: string, rest: string)
    requires method_ in SIP_METHODS
    ensures IsSipMessage(method_ + " " + rest)
  {
    hide IsSipMessage;
    assert method_ + " " <= method_ + " " + rest;
    IsSipMessageIff(method_ + " " + rest);
  }

  // ------------------------------------------------ messages with a given domain

  lemma {:induction false} UpToIs(text: string, stops: string, rest: string)
    requires (forall c :: c in text ==> c !in stops) && (rest == "" || rest[0] in stops)
    ensures UpTo(text + rest, stops) == text
    decreases |text|
  {
    if text == "" {
      assert text + rest == rest;
    } else {
      assert (text + rest)[1..] == text[1..] + rest && (text + rest)[0] == text[0];
      UpToIs(text[1..], stops, rest);
    }
  }

  /** An address has any user part without an at-sign, but an empty one. */
  lemma AddressIs(user: string, domain: string, stops: string, rest: string)
    requires '@' !in user && domain != "" && forall c :: c in domain ==> c !in stops
    requires rest == "" || rest[0] in stops
    ensures AtDomain(user + "@" + domain + rest, stops) == if user == "" then None else Some(domain)
  {
    var (s, n) := (user + "@" + domain + rest, |user|);
    assert s[..n] == user && s[n] == '@' && s[n + 1..] == domain + rest;
    IndexOfIs(s, '@', n);
    UpToIs(domain, stops, rest);
  }

  predicate HasNoAddress(s: string) {
    ':' !in s || '@' !in s
  }

  lemma NoDomain(s: string, stops: string)
    requires '@' !in s
    ensures AtDomain(s, stops) == None
  {
    assert s[..|s|] == s;
    IndexOfIs(s, '@', |s|);
  }

  /** Text that lacks a colon or an at-sign has no address in it. */
  lemma {:induction false} NoAddress(s: string)
    requires HasNoAddress(s)
    ensures LastSip(s) == None && FromDomain(s) == None
    decreases |s|
  {
    hide AtDomain;
    if s != "" {
      NoAddress(s[1..]);
      if "sip:" <= s {
        assert s[3] == ':';
        NoDomain(s[4..], ";>");
      }
      if "From:" <= s {
        assert s[4] == ':';
        NoAddress(s[5..]);
      }
    }
  }

  /** Nor has the rest of a line without a colon, whatever comes in later lines. */
  lemma {:induction false} NoAddressOnLine(line: string, more: string)
    requires ':' !in line && (more == "" || more[0] == '\r' || more[0] == '\n')
    ensures LastSip(line + more) == None
    decreases |line|
  {
    hide AtDomain;
    var s := line + more;
    if line == "" {
      assert s == more;
      assert more != "" ==> more[0] != 's';
    } else {
      assert s[1..] == line[1..] + more && s[0] == line[0];
      NoAddressOnLine(line[1..], more);
      ColonNeeded(line, more);
    }
  }

  lemma ColonNeeded(line: string, more: string)
    requires ':' !in line && (more == "" || more[0] == '\r' || more[0] == '\n')
    ensures !("sip:" <= line + more)
  {
    PrefixStops("sip:", line, more);
    HasColon(line);
  }

  lemma HasColon(s: string)
    ensures "sip:" <= s ==> ':' in s
  {
    if "sip:" <= s {
      assert s[3] == ':';
    }
  }

  /** A prefix without the character that comes next ends before it. */
  lemma {:induction false} PrefixStops(p: string, x: string, next: string)
    requires next == "" || next[0] !in p
    ensures p <= x + next ==> p <= x
    decreases |x|
  {
    if x == "" {
      assert x + next == next;
      if p != "" && next != "" {
        ByHead(next, p);
      }
    } else if p != "" {
      assert (x + next)[1..] == x[1..] + next && (x + next)[0] == x[0];
      ByHead(x + next, p);
      ByHead(x, p);
      PrefixStops(p[1..], x[1..], next);
    }
  }

  lemma SipThenAddress(user: string, domain: string, after: string)
    requires "sip:" <= user && '@' !in user && domain != "" && ';' !in domain && '>' !in domain
    requires after == "" || after[0] == ';' || after[0] == '>'
    ensures AtDomain((user + "@" + domain + after)[4..], ";>") in {None, Some(domain)}
  {
    hide AtDomain;
    AddressIs(user[4..], domain, ";>", after);
    assert (user + "@" + domain + after)[4..] == user[4..] + "@" + domain + after;
  }

  lemma SipStarts(user: string, domain: string, after: string)
    ensures "sip:" <= user + "@" + domain + after <==> "sip:" <= user
  {
    assert user + "@" + domain + after == user + ("@" + domain + after);
    PrefixStops("sip:", user, "@" + domain + after);
  }

  /** Inside a user part the search ends at the same domain, or nowhere. */
  lemma {:induction false} SipInUser(user: string, domain: string, after: string)
    requires '@' !in user && domain != "" && ';' !in domain && '>' !in domain
    requires after == "" || after[0] == ';' || after[0] == '>'
    requires LastSip("@" + domain + after) == None
    ensures LastSip(user + "@" + domain + after) in {None, Some(domain)}
    decreases |user|
  {
    hide AtDomain;
    var s := user + "@" + domain + after;
    if user == "" {
      assert s == "@" + domain + after;
    } else {
      assert s[1..] == user[1..] + "@" + domain + after;
      SipInUser(user[1..], domain, after);
      SipStarts(user, domain, after);
      if "sip:" <= s {
        SipThenAddress(user, domain, after);
      }
    }
  }

  lemma SipAddressIs(user: string, domain: string, after: string)
    requires user != "" && '@' !in user && domain != "" && ';' !in domain && '>' !in domain
    requires after == "" || after[0] == ';' || after[0] == '>'
    requires LastSip("@" + domain + after) == None
    ensures LastSip("sip:" + user + "@" + domain + after) == Some(domain)
  {
    hide AtDomain;
    var s := "sip:" + user + "@" + domain + after;
    var longer := "ip:" + user;
    assert s[1..] == longer + "@" + domain + after && s[4..] == user + "@" + domain + after;
    SipInUser(longer, domain, after);
    AddressIs(user, domain, ";>", after);
  }

  /** What stands before the address on its line makes no difference. */
  lemma {:induction false} SipBehind(display: string, address: string)
    requires '\r' !in display && '\n' !in display && LastSip(address).Some?
    ensures LastSip(display + address) == LastSip(address)
    decreases |display|
  {
    if display == "" {
      assert display + address == address;
    } else {
      assert (display + address)[1..] == display[1..] + address && (display + address)[0] == display[0];
      SipBehind(display[1..], address);
    }
  }

  /** Nor does what stands before the first "From:". */
  lemma {:induction false} FromBehind(before: string, address: string)
    requires !Contains(before, "From:") && LastSip(address).Some?
    ensures FromDomain(before + ("From:" + address)) == LastSip(address)
    decreases |before|
  {
    var header := "From:" + address;
    if before == "" {
      assert before + header == header && header[5..] == address;
    } else {
      var s := before + header;
      assert s[1..] == before[1..] + header;
      NotYetFrom(before, address);
      FromBehind(before[1..], address);
    }
  }

  lemma NotYetFrom(before: string, address: string)
    requires before != "" && !("From:" <= before)
    ensures !("From:" <= before + ("From:" + address))
  {
    var header := "From:" + address;
    assert (before + header)[1..] == before[1..] + header && (before + header)[0] == before[0];
    ByHead(before + header, "From:");
    ByHead(before, "From:");
    PrefixStops("From:"[1..], before[1..], header);
  }

  /** From a message with a From header, after any other text, the domain of the last
      address on its line is extracted, whatever its user part is. */
  lemma FromHeaderExtracts(before: string, display: string, user: string, domain: string, after: string)
    requires !Contains(before, "From:") && '\r' !in display && '\n' !in display
    requires user != "" && '@' !in user && domain != "" && ';' !in domain && '>' !in domain
    requires after == "" || after[0] == ';' || after[0] == '>'
    requires LastSip("@" + domain + after) == None
    ensures ExtractDomain(before + "From:" + display + "sip:" + user + "@" + domain + after) == domain
  {
    hide LastSip, FromDomain;
    var address := "sip:" + user + "@" + domain + after;
    SipAddressIs(user, domain, after);
    SipBehind(display, address);
    FromBehind(before, display + address);
    assert before + "From:" + display + "sip:" + user + "@" + domain + after
        == before + ("From:" + (display + address));
  }

  lemma {:induction false} CapitalsAre(method_: string, rest: string)
    requires (forall i :: 0 <= i < |method_| ==> 'A' <= method_[i] <= 'Z') && (rest == "" || !('A' <= rest[0] <= 'Z'))
    ensures Capitals(method_ + rest) == |method_|
    decreases |method_|
  {
    if method_ == "" {
      assert method_ + rest == rest;
    } else {
      assert (method_ + rest)[1..] == method_[1..] + rest && (method_ + rest)[0] == method_[0];
      CapitalsAre(method_[1..], rest);
    }
  }

  lemma MethodsAreCapitals(method_: string)
    requires method_ in SIP_METHODS
    ensures method_ != "" && forall i :: 0 <= i < |method_| ==> 'A' <= method_[i] <= 'Z' && method_[i] != 'F'
  {}

  lemma RequestHere(method_: string, rest: string)
    requires method_ in SIP_METHODS && " sip:" <= rest
    ensures RequestDomain(method_ + rest) == AtDomain(rest[5..], ";: ")
  {
    hide AtDomain, Capitals;
    var s := method_ + rest;
    MethodsAreCapitals(method_);
    hide SIP_METHODS;
    CapitalsAre(method_, rest);
    assert s[|method_|..] == rest;
  }

  /** Where the From pattern finds nothing, the domain of the request line is extracted,
      again whatever its user part is. */
  lemma RequestLineExtracts(method_: string, user: string, domain: string, after: string)
    requires method_ in SIP_METHODS && user != "" && '@' !in user
    requires domain != "" && ';' !in domain && ':' !in domain && ' ' !in domain
    requires after == "" || after[0] == ';' || after[0] == ':' || after[0] == ' '
    requires FromDomain(method_ + (" sip:" + (user + "@" + domain + after))) == None
    ensures ExtractDomain(method_ + (" sip:" + (user + "@" + domain + after))) == domain
  {
    hide FromDomain, RequestDomain, AtDomain, SIP_METHODS;
    var address := user + "@" + domain + after;
    AddressIs(user, domain, ";: ", after);
    assert (" sip:" + address)[5..] == address;
    RequestHere(method_, " sip:" + address);
  }

  // --------------------------------------------------------- two messages at hand

  lemma {:induction false} NoFromInFront(front: string, s: string)
    requires 'F' !in front
    ensures FromDomain(front + s) == FromDomain(s)
    decreases |front|
  {
    if front == "" {
      assert front + s == s;
    } else {
      assert (front + s)[1..] == front[1..] + s && (front + s)[0] == front[0];
      NoFromInFront(front[1..], s);
    }
  }

  /** A message whose From header holds the domain, with any text behind it that cannot
      be taken for an address. */
  function FromMessage(domain: string, rest: string): string {
    "ACK From:sip:=@" + domain + ">" + rest
  }

  /** A message whose request line does. */
  function RequestMessage(domain: string, rest: string): string {
    "ACK sip:=@" + domain + " " + rest
  }

  lemma TailHasNoAddress(domain: string, sep: char, rest: string)
    requires ':' !in domain && '@' !in domain && HasNoAddress(rest) && sep != ':' && sep != '@'
    ensures HasNoAddress(domain + ([sep] + rest))
  {}

  lemma AtSignIsNoSip(s: string)
    requires LastSip(s) == None
    ensures LastSip("@" + s) == None
  {
    assert ("@" + s)[1..] == s;
  }

  lemma FromMessageForms(domain: string, rest: string)
    ensures FromMessage(domain, rest) == "ACK" + " " + ("From:sip:=@" + domain + ">" + rest)
    ensures FromMessage(domain, rest) == "ACK " + "From:" + "" + "sip:" + "=" + "@" + domain + (">" + rest)
  {}

  lemma FromMessageExtracts(domain: string, rest: string)
    requires domain != "" && ';' !in domain && '>' !in domain && ':' !in domain && '@' !in domain && HasNoAddress(rest)
    ensures IsSipMessage(FromMessage(domain, rest)) && ExtractDomain(FromMessage(domain, rest)) == domain
  {
    hide LastSip, FromDomain, IsSipMessage, HasNoAddress, ExtractDomain, FromMessage;
    FromMessageForms(domain, rest);
    MethodIsSip("ACK", "From:sip:=@" + domain + ">" + rest);
    TailHasNoAddress(domain, '>', rest);
    NoAddressBehind(domain, ">" + rest);
    ContainsChars("ACK ", "From:", 'F');
    FromHeaderExtracts("ACK ", "", "=", domain, ">" + rest);
  }

  lemma NoAddressBehind(domain: string, after: string)
    requires HasNoAddress(domain + after)
    ensures LastSip("@" + domain + after) == None && FromDomain(domain + after) == None
  {
    hide HasNoAddress, LastSip;
    NoAddress(domain + after);
    AtSignIsNoSip(domain + after);
    assert "@" + (domain + after) == "@" + domain + after;
  }

  lemma RequestMessageForms(domain: string, rest: string)
    ensures RequestMessage(domain, rest) == "ACK" + " " + ("sip:=@" + domain + " " + rest)
    ensures RequestMessage(domain, rest) == "ACK" + (" sip:" + ("=" + "@" + domain + (" " + rest)))
    ensures RequestMessage(domain, rest) == "ACK sip:=@" + (domain + (" " + rest))
  {}

  lemma RequestMessageExtracts(domain: string, rest: string)
    requires domain != "" && ';' !in domain && ' ' !in domain && ':' !in domain && '@' !in domain && HasNoAddress(rest)
    ensures IsSipMessage(RequestMessage(domain, rest)) && ExtractDomain(RequestMessage(domain, rest)) == domain
  {
    hide FromDomain, LastSip, IsSipMessage, HasNoAddress, ExtractDomain, RequestMessage;
    RequestMessageForms(domain, rest);
    MethodIsSip("ACK", "sip:=@" + domain + " " + rest);
    TailHasNoAddress(domain, ' ', rest);
    NoAddressBehind(domain, " " + rest);
    NoFromInFront("ACK sip:=@", domain + (" " + rest));
    RequestLineExtracts("ACK", "=", domain, " " + rest);
  }

  /** A domain that neither pattern yields holds both of the characters that end one. */
  predicate Extractable(domain: string) {
    domain != "" && ('>' !in domain || ' ' !in domain)
  }
}
