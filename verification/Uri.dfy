/** libhtmlparser/Uri.cc: reading a URL and writing it out again. */
module Uris {
  import opened CStrings
  import opened Chars
  import opened Options
  import opened Seqs

  /** The fields of a Uri. */
  datatype Parts = Parts(
    scheme: string, user: string, password: string, host: string, portStr: string, port: nat,
    path: string, query: string, fragment: string, hasQuery: bool, hasFragment: bool)

  const BLANK: Parts := Parts("", "", "", "", "", 0, "", "", "", false, false)

  // ----- ports ------------------------------------------------------------

  const SCHEMES: seq<(string, nat)> := [
    ("http", 80), ("ftp", 21), ("https", 443), ("gopher", 70), ("ldap", 389), ("nntp", 119), ("snews", 563),
    ("imap", 143), ("pop", 110), ("sip", 5060), ("rtsp", 554), ("wais", 210), ("z39.50r", 210), ("z39.50s", 210),
    ("prospero", 191), ("nfs", 2049), ("tip", 3372), ("acap", 674), ("telnet", 23), ("ssh", 22)]

  function PortIn(schemes: seq<(string, nat)>, scheme: string): nat {
    if schemes == [] then 0
    else if EqualsIgnoreCase(scheme, schemes[0].0) then schemes[0].1
    else PortIn(schemes[1..], scheme)
  }

  function DefaultPort(scheme: string): nat {
    PortIn(SCHEMES, scheme)
  }

  /** The digits of s as a number, if s is nothing but digits. */
  function Digits(s: string): Option<nat> {
    if s == "" || !IsDigit(s[|s|-1]) then None
    else
      var d := s[|s|-1] as int - '0' as int;
      if |s| == 1 then Some(d)
      else
        match Digits(s[..|s|-1])
        case None => None
        case Some(n) => Some(10 * n + d)
  }

  /** strtol in base 10, if it comes to the end of s: blanks, a sign and
      digits; the result is kept within 64 bits. */
  function StrToL(s: string): Option<int> {
    if s != "" && IsSpace(s[0]) then StrToL(s[1..])
    else if s != "" && s[0] == '-' then
      match Digits(s[1..])
      case None => None
      case Some(n) =>
        Some(if n > 0x8000_0000_0000_0000 then -0x8000_0000_0000_0000 else 0 - n)
    else
      match Digits(if s != "" && s[0] == '+' then s[1..] else s)
      case None => None
      case Some(n) => Some(if n > 0x7FFF_FFFF_FFFF_FFFF then 0x7FFF_FFFF_FFFF_FFFF else n)
  }

  /** What is stored in an unsigned int. */
  function PortNumber(v: int): nat {
    v % 0x1_0000_0000
  }

  // ----- reading ----------------------------------------------------------

  predicate SchemeStop(c: char) { c == ':' || c == '/' || c == '?' || c == '#' }

  predicate HostStop(c: char) { c == '/' || c == '?' || c == '#' }

  predicate PathStop(c: char) { c == '?' || c == '#' }

  /** Path, query and fragment. */
  function ReadTail(p: Parts, t: string): Parts {
    var s := Until(t, 0, PathStop);
    var q := p.(path := t[..s]);
    if s == |t| then q
    else if t[s] == '?' then
      match StrChr(t[s+1..], '#')
      case Some(k) => q.(query := t[s+1..][..k], hasQuery := true, fragment := t[s+1..][k+1..], hasFragment := true)
      case None => q.(query := t[s+1..], hasQuery := true)
    else q.(fragment := t[s+1..], hasFragment := true)
  }

  /** The scheme ends here, if there is one: the first delimiter is a colon,
      and two slashes follow. */
  function SchemeEnd(s: string): (r: Option<nat>)
    ensures r.Some? ==> 0 < r.value && r.value + 3 <= |s|
  {
    if s == "" || !IsAlpha(s[0]) then None
    else
      var e := Until(s, 0, SchemeStop);
      if e + 3 <= |s| && s[e..e+3] == "://" && e > 0 then Some(e) else None
  }

  /** User and password, in front of the last '@'. */
  function ReadUser(p: Parts, info: string): Parts {
    match StrRChr(info, '@')
    case None => p
    case Some(at) =>
      match StrChr(info[..at], ':')
      case Some(k) => p.(user := info[..k], password := info[k+1..at])
      case None => p.(user := info[..at])
  }

  function HostPort(info: string): string {
    match StrRChr(info, '@') case None => info case Some(at) => info[at+1..]
  }

  /** Host and port; a port that is no number is refused. */
  function ReadHost(p: Parts, hostport: string): Option<Parts> {
    match StrChr(hostport, ':')
    case None => Some(p.(host := hostport))
    case Some(k) =>
      var portStr := hostport[k+1..];
      var q := p.(host := hostport[..k], portStr := portStr);
      if portStr == "" then Some(q.(port := DefaultPort(p.scheme)))
      else
        match StrToL(portStr)
        case None => None
        case Some(v) => Some(q.(port := PortNumber(v)))
  }

  function Read(s: string): Option<Parts> {
    if s == "" then Some(BLANK)
    else
      match SchemeEnd(s)
      case None => Some(ReadTail(BLANK, s))
      case Some(e) =>
        var h := Until(s, e + 3, HostStop);
        var info := s[e+3..h];
        match ReadHost(ReadUser(BLANK.(scheme := s[..e]), info), HostPort(info))
        case None => None
        case Some(p) => Some(ReadTail(p, s[h..]))
  }

  // ----- writing ----------------------------------------------------------

  function PortText(p: Parts): string {
    if p.portStr != "" && !(p.scheme != "" && p.port == DefaultPort(p.scheme)) then ":" + p.portStr else ""
  }

  function TailText(p: Parts): string {
    p.path + (if p.hasQuery then "?" + p.query else "") + if p.hasFragment then "#" + p.fragment else ""
  }

  /** What stands in front of the path. */
  function Front(p: Parts): string {
    (if p.scheme != "" then p.scheme + "://" else "") + p.host + PortText(p)
  }

  function Text(p: Parts): string {
    Front(p) + TailText(p)
  }

  // ----- reading what was written -----------------------------------------

  lemma TailKept(p: Parts, t: string)
    requires Untailed(p)
    ensures TailText(ReadTail(p, t)) == t
  {
    hide Until, StrChr;
    var s := Until(t, 0, PathStop);
    if s == |t| {
      assert t[..s] + "" + "" == t;
    } else {
      var path, u := t[..s], t[s+1..];
      assert t == path + ([t[s]] + u);
      if t[s] == '?' {
        QueryKept(path, u);
      } else {
        assert path + "" + ("#" + u) == path + ("#" + u);
      }
    }
  }

  lemma QueryKept(path: string, u: string)
    ensures match StrChr(u, '#')
            case Some(k) => path + ("?" + u[..k]) + ("#" + u[k+1..]) == path + ("?" + u)
            case None => path + ("?" + u) + "" == path + ("?" + u)
  {
    match StrChr(u, '#')
    case None =>
    case Some(k) =>
      assert u == u[..k] + "#" + u[k+1..];
      assert "?" + u == "?" + u[..k] + ("#" + u[k+1..]);
  }

  /** Path, query and fragment are still to come. */
  predicate Untailed(p: Parts) {
    !p.hasQuery && !p.hasFragment && p.query == "" && p.fragment == ""
  }

  /** What holds of the fields that a URL with a scheme is read into. */
  ghost predicate Read1(s: string, e: nat, h: nat, p: Parts) {
    && e + 3 <= h <= |s| && p.scheme == s[..e] != "" && IsAlpha(p.scheme[0])
    && (forall c :: c in p.scheme ==> !SchemeStop(c))
    && (forall c :: c in p.host + p.portStr ==> !HostStop(c) && c != '@')
    && ':' !in p.host
    && (p.portStr != "" ==> StrToL(p.portStr).Some? && p.port == PortNumber(StrToL(p.portStr).value))
    && Untailed(p)
    && (s[h..] != "" ==> HostStop(s[h]))
  }

  lemma SchemeIs(s: string)
    requires SchemeEnd(s).Some?
    ensures var e := SchemeEnd(s).value;
            && e + 3 <= |s| && s[..e] != "" && IsAlpha(s[..e][0]) && s[e..e+3] == "://"
            && forall c :: c in s[..e] ==> !SchemeStop(c)
  {
  }

  lemma HostPortClean(info: string)
    requires forall c :: c in info ==> !HostStop(c)
    ensures forall c :: c in HostPort(info) ==> !HostStop(c) && c != '@'
  {
  }

  lemma HostClean(p: Parts, hostport: string)
    requires ReadHost(p, hostport).Some? && p.portStr == ""
    ensures var q := ReadHost(p, hostport).value;
            && (forall c :: c in q.host + q.portStr ==> c in hostport) && ':' !in q.host
            && (q.portStr != "" ==> StrToL(q.portStr).Some? && q.port == PortNumber(StrToL(q.portStr).value))
            && q.scheme == p.scheme && (Untailed(p) ==> Untailed(q))
  {
    hide StrToL;
    match StrChr(hostport, ':')
    case None =>
    case Some(k) =>
      assert hostport == hostport[..k] + [':'] + hostport[k+1..];
  }

  lemma ReadIs(s: string) returns (e: nat, h: nat, p: Parts)
    requires SchemeEnd(s).Some? && Read(s).Some?
    ensures Read1(s, e, h, p) && Read(s) == Some(ReadTail(p, s[h..]))
  {
    hide StrToL, ReadTail, SchemeEnd, ReadHost, HostPort;
    SchemeIs(s);
    e := SchemeEnd(s).value;
    h := Until(s, e + 3, HostStop);
    var info := s[e+3..h];
    assert forall c :: c in info ==> !HostStop(c);
    HostPortClean(info);
    var q := ReadUser(BLANK.(scheme := s[..e]), info);
    HostClean(q, HostPort(info));
    p := ReadHost(q, HostPort(info)).value;
  }

  /** What is written for host and port. */
  function InfoText(p: Parts): string {
    p.host + PortText(p)
  }

  /** The fields that are left of p once it has been written and read. */
  function Reread(p: Parts): Parts {
    var q := BLANK.(scheme := p.scheme, host := p.host);
    if PortText(p) == "" then q else q.(portStr := p.portStr, port := p.port)
  }

  lemma InfoChars(p: Parts)
    ensures forall c :: c in InfoText(p) ==> c == ':' || c in p.host + p.portStr
  {
    hide DefaultPort;
    forall c | c in InfoText(p)
      ensures c == ':' || c in p.host + p.portStr
    {
      if c !in p.host {
        assert c in PortText(p);
      }
    }
  }

  lemma InfoReadBack(s: string, e: nat, h: nat, p: Parts)
    requires Read1(s, e, h, p)
    ensures var info := InfoText(p);
            && (forall c :: c in info ==> !HostStop(c) && c != '@')
            && ReadHost(ReadUser(BLANK.(scheme := p.scheme), info), HostPort(info)) == Some(Reread(p))
  {
    hide StrToL, DefaultPort, StrChr, StrRChr;
    var info := InfoText(p);
    InfoChars(p);
    NowhereIs(info, '@');
    if PortText(p) != "" {
      assert info[..|p.host|] == p.host && info[|p.host|] == ':' && info[|p.host|+1..] == p.portStr;
      FirstIs(info, ':', |p.host|);
    } else {
      assert info == p.host;
      NowhereIs(p.host, ':');
    }
  }

  /** A URL put together from its parts is taken apart into them. */
  lemma PartsFound(scheme: string, info: string, t: string)
    requires scheme != "" && IsAlpha(scheme[0]) && (forall c :: c in scheme ==> !SchemeStop(c))
    requires (forall c :: c in info ==> !HostStop(c)) && (t != "" ==> HostStop(t[0]))
    ensures var s, e := scheme + "://" + info + t, |scheme|;
            && s != "" && SchemeEnd(s) == Some(e) && s[..e] == scheme
            && Until(s, e + 3, HostStop) == e + 3 + |info| && s[e+3..e+3+|info|] == info && s[e+3+|info|..] == t
  {
    hide Until, IsAlpha;
    var s, e := scheme + "://" + info + t, |scheme|;
    assert forall k :: 0 <= k < e ==> s[k] == scheme[k];
    assert s[e] == ':' && s[e+1] == '/' && s[e+2] == '/';
    assert s[e..e+3] == "://";
    UntilIs(s, 0, e, SchemeStop);
    assert forall k :: e + 3 <= k < e + 3 + |info| ==> s[k] == info[k-e-3];
    assert t != "" ==> s[e+3+|info|] == t[0];
    UntilIs(s, e + 3, e + 3 + |info|, HostStop);
  }

  lemma TailFields(p: Parts, t: string)
    ensures var q := ReadTail(p, t);
            q.scheme == p.scheme && q.host == p.host && q.portStr == p.portStr && q.port == p.port
  {
    hide Until, StrChr;
  }

  lemma TextIs(p: Parts, t: string)
    requires p.scheme != "" && Untailed(p)
    ensures Text(ReadTail(p, t)) == p.scheme + "://" + InfoText(p) + t
  {
    hide TailText, DefaultPort, ReadTail;
    TailKept(p, t);
    TailFields(p, t);
    assert p.scheme + "://" + p.host + PortText(p) + t == p.scheme + "://" + (p.host + PortText(p)) + t;
  }

  lemma RereadSame(p: Parts)
    ensures Reread(p).scheme == p.scheme && Untailed(Reread(p)) && Reread(p).host == p.host
  {
  }

  lemma RereadIs(p: Parts)
    ensures InfoText(Reread(p)) == InfoText(p)
  {
  }

  lemma ReadBack(s: string) returns (p: Parts, t: string)
    requires SchemeEnd(s).Some? && Read(s).Some?
    ensures Untailed(p)
    ensures Read(s) == Some(ReadTail(p, t)) && Read(Text(Read(s).value)) == Some(ReadTail(Reread(p), t))
    ensures Text(ReadTail(p, t)) == p.scheme + "://" + InfoText(p) + t
    ensures Text(ReadTail(Reread(p), t)) == p.scheme + "://" + InfoText(p) + t
  {
    hide StrToL, ReadTail, SchemeEnd, ReadHost, HostPort, Text, InfoText, ReadUser, Reread;
    var e, h;
    e, h, p := ReadIs(s);
    t := s[h..];
    TextIs(p, t);
    InfoReadBack(s, e, h, p);
    PartsFound(p.scheme, InfoText(p), t);
    RereadIs(p);
    RereadSame(p);
    TextIs(Reread(p), t);
  }

  // ----- the round trip ---------------------------------------------------

  /** A path without a scheme is written as it was read. */
  lemma PlainText(s: string)
    requires SchemeEnd(s).None?
    ensures Read(s).Some? && Text(Read(s).value) == s
  {
    hide SchemeEnd, ReadTail;
    if s != "" {
      TailKept(BLANK, s);
      TailFields(BLANK, s);
      assert "" + "" + "" + s == s;
    }
  }

  /** What init accepts, unparse writes so that init accepts it again and finds
      the same scheme, host, path, query and fragment; writing that out
      changes nothing more. */
  lemma RoundTrip(s: string)
    requires Read(s).Some?
    ensures var u := Read(s).value;
            && Read(Text(u)).Some?
            && var v := Read(Text(u)).value;
               && v.scheme == u.scheme && v.host == u.host && v.path == u.path
               && v.query == u.query && v.hasQuery == u.hasQuery
               && v.fragment == u.fragment && v.hasFragment == u.hasFragment
               && Text(v) == Text(u)
  {
    hide SchemeEnd, Read, Text, ReadTail, InfoText, Reread;
    if SchemeEnd(s).None? {
      PlainText(s);
    } else {
      var p, t := ReadBack(s);
      RereadSame(p);
      SameTail(p, Reread(p), t);
      TailFields(p, t);
      TailFields(Reread(p), t);
    }
  }

  lemma SameTail(p: Parts, q: Parts, t: string)
    requires Untailed(p) && Untailed(q)
    ensures var v, u := ReadTail(p, t), ReadTail(q, t);
            && v.path == u.path && v.query == u.query && v.hasQuery == u.hasQuery
            && v.fragment == u.fragment && v.hasFragment == u.hasFragment
  {
    hide Until, StrChr;
  }

  /** The port is written again: there is none, or it is not empty and not the
      one that the scheme implies. */
  predicate KeepsPort(scheme: string, rest: string) {
    match StrChr(rest, ':')
    case None => true
    case Some(k) =>
      rest[k+1..] != "" && StrToL(rest[k+1..]).Some? && PortNumber(StrToL(rest[k+1..]).value) != DefaultPort(scheme)
  }

  /** Nothing of the URL gets lost: there is no userinfo, no empty port and no
      port that the scheme implies. */
  predicate KeepsAll(scheme: string, info: string) {
    '@' !in info && KeepsPort(scheme, info)
  }

  lemma HostKept(q: Parts, rest: string)
    requires q.scheme != "" && q.portStr == "" && ReadHost(q, rest).Some?
    ensures var p := ReadHost(q, rest).value;
            |InfoText(p)| <= |rest| && (InfoText(p) == rest <==> KeepsPort(q.scheme, rest))
  {
    hide StrToL, DefaultPort, StrChr;
    var p := ReadHost(q, rest).value;
    match StrChr(rest, ':')
    case None =>
      assert InfoText(p) == rest;
    case Some(k) =>
      assert rest == rest[..k] + (":" + rest[k+1..]);
      assert InfoText(p) == if PortText(p) == "" then rest[..k] else rest;
  }

  lemma InfoKept(scheme: string, info: string)
    requires scheme != "" && ReadHost(ReadUser(BLANK.(scheme := scheme), info), HostPort(info)).Some?
    ensures var p := ReadHost(ReadUser(BLANK.(scheme := scheme), info), HostPort(info)).value;
            InfoText(p) == info <==> KeepsAll(scheme, info)
  {
    hide KeepsPort, ReadHost, InfoText, StrChr, StrRChr;
    HostKept(ReadUser(BLANK.(scheme := scheme), info), HostPort(info));
  }

  lemma Cancel(a: string, b: string, x: string, y: string)
    ensures a + x + b == a + y + b <==> x == y
  {
    if a + x + b == a + y + b {
      assert |x| == |y|;
      assert (a + x + b)[|a|..|a|+|x|] == x && (a + y + b)[|a|..|a|+|y|] == y;
    }
  }

  /** unparse gives back what init read exactly if nothing gets lost. */
  lemma IdentityExactly(s: string)
    requires Read(s).Some?
    ensures Text(Read(s).value) == s <==>
            match SchemeEnd(s)
            case None => true
            case Some(e) => KeepsAll(s[..e], s[e+3..Until(s, e + 3, HostStop)])
  {
    hide SchemeEnd, ReadTail, Text, InfoText, KeepsAll, ReadHost, HostPort, ReadUser, StrToL;
    if SchemeEnd(s).None? {
      PlainText(s);
    } else {
      SchemeIs(s);
      var e := SchemeEnd(s).value;
      var h := Until(s, e + 3, HostStop);
      var info, t := s[e+3..h], s[h..];
      var p := ReadHost(ReadUser(BLANK.(scheme := s[..e]), info), HostPort(info)).value;
      UserKeeps(BLANK.(scheme := s[..e]), info);
      HostClean(ReadUser(BLANK.(scheme := s[..e]), info), HostPort(info));
      TextIs(p, t);
      InfoKept(s[..e], info);
      Cancel(s[..e] + "://", t, InfoText(p), info);
      assert s == s[..e] + s[e..e+3] + info + t;
    }
  }

  lemma UserKeeps(p: Parts, info: string)
    ensures var q := ReadUser(p, info);
            q.scheme == p.scheme && q.portStr == p.portStr && (Untailed(p) ==> Untailed(q))
  {
  }

  // ----- the class --------------------------------------------------------

  class Uri {
    var mScheme: string
    var mUser: string
    var mPassword: string
    var mHostname: string
    var mPath: string
    var mQuery: string
    var mFragment: string
    var mPortStr: string
    var mExistsQuery: bool
    var mExistsFragment: bool
    var mPort: nat

    ghost function Fields(): Parts
      reads this
    {
      Parts(mScheme, mUser, mPassword, mHostname, mPortStr, mPort, mPath, mQuery, mFragment, mExistsQuery,
          mExistsFragment)
    }

    constructor ()
      ensures Fields() == BLANK
    {
      mScheme, mUser, mPassword, mHostname, mPath, mQuery, mFragment, mPortStr := "", "", "", "", "", "", "", "";
      mExistsQuery, mExistsFragment, mPort := false, false, 0;
    }

    /** deal_with_path, from the pointer uri on. */
    method DealWithPath(uri: string)
      requires NUL !in uri && mPath == "" && Untailed(Fields())
      modifies this`mPath, this`mQuery, this`mFragment, this`mExistsQuery, this`mExistsFragment
      ensures Fields() == ReadTail(old(Fields()), uri)
    {
      hide StrChr;
      var s := 0;
      while At(uri, s) != NUL && !PathStop(uri[s])
        invariant s <= |uri| && forall k :: 0 <= k < s ==> !PathStop(uri[k])
        decreases |uri| - s
      {
        s := s + 1;
      }
      UntilIs(uri, 0, s, PathStop);
      if s != 0 {
        mPath := uri[..s];
      }
      if At(uri, s) == NUL {
        return;
      }
      if uri[s] == '?' {
        var rest := uri[s+1..];
        var s1 := StrChr(rest, '#');
        if s1.Some? {
          mFragment := rest[s1.value+1..];
          mExistsFragment := true;
          mQuery := rest[..s1.value];
        } else {
          mQuery := rest;
        }
        mExistsQuery := true;
        return;
      }
      mFragment := uri[s+1..];
      mExistsFragment := true;
    }

    /** deal_with_host, and the path after it. */
    method DealWithHost(hostinfo: string, uri: string) returns (ok: bool)
      requires NUL !in uri && mPath == "" && mPortStr == "" && Untailed(Fields())
      modifies this
      ensures ok == ReadHost(old(Fields()), hostinfo).Some?
      ensures ok ==> Fields() == ReadTail(ReadHost(old(Fields()), hostinfo).value, uri)
    {
      hide StrToL, ReadTail, StrChr, DefaultPort;
      var s := StrChr(hostinfo, ':');
      if s.None? {
        mHostname := hostinfo;
        DealWithPath(uri);
        return true;
      }
      mHostname := hostinfo[..s.value];
      var portStr := hostinfo[s.value+1..];
      if portStr != "" {
        mPortStr := portStr;
        var v := StrToL(mPortStr);
        if v.Some? {
          mPort := PortNumber(v.value);
          DealWithPath(uri);
          return true;
        }
        return false;
      }
      mPort := PortOfScheme(mScheme);
      DealWithPath(uri);
      return true;
    }

    /** The search for the last '@', and what it means. */
    method DealWithHostinfo(info: string, uri: string) returns (ok: bool)
      requires NUL !in uri && Fields() == BLANK.(scheme := mScheme)
      modifies this
      ensures var p := ReadHost(ReadUser(old(Fields()), info), HostPort(info));
              ok == p.Some? && (ok ==> Fields() == ReadTail(p.value, uri))
    {
      hide StrToL, ReadTail, StrChr, DefaultPort, ReadHost, StrRChr;
      var s: int := |info| - 1;
      while s >= 0 && info[s] != '@'
        invariant -1 <= s < |info| && '@' !in info[s+1..]
      {
        s := s - 1;
      }
      if s < 0 {
        assert info[0..] == info;
        NowhereIs(info, '@');
        ok := DealWithHost(info, uri);
        return;
      }
      LastIs(info, '@', s);
      var s1 := StrChr(info[..s], ':');
      if s1.Some? {
        mUser := info[..s1.value];
        mPassword := info[s1.value+1..s];
      } else {
        mUser := info[..s];
      }
      ok := DealWithHost(info[s+1..], uri);
    }

    /** init. An exception is the answer false. */
    method Init(uriStr: string) returns (ok: bool)
      requires Fields() == BLANK && NUL !in uriStr
      modifies this
      ensures ok == Read(uriStr).Some?
      ensures ok ==> Fields() == Read(uriStr).value
    {
      hide ReadTail, ReadHost, ReadUser, HostPort, SchemeEnd;
      if uriStr == "" {
        return true;
      }
      var e := FindScheme(uriStr);
      if e.None? {
        DealWithPath(uriStr);
        return true;
      }
      mScheme := uriStr[..e.value];
      var hostinfo := e.value + 3;
      var s := hostinfo;
      while At(uriStr, s) != NUL && !HostStop(uriStr[s])
        invariant hostinfo <= s <= |uriStr| && forall k :: hostinfo <= k < s ==> !HostStop(uriStr[k])
        decreases |uriStr| - s
      {
        s := s + 1;
      }
      UntilIs(uriStr, hostinfo, s, HostStop);
      ok := DealWithHostinfo(uriStr[hostinfo..s], uriStr[s..]);
    }

    /** The part of unparse in front of the path. */
    method UnparseFront() returns (ret: string)
      ensures ret == Front(Fields())
    {
      hide DefaultPort;
      ret := "";
      if mScheme != "" {
        ret := ret + mScheme;
        ret := ret + "://";
      }
      if mHostname != "" {
        ret := ret + mHostname;
      }
      var default := PortOfScheme(mScheme);
      if mPortStr != "" && !(mScheme != "" && mPort == default) {
        Regroup(ret, ":", mPortStr);
        ret := ret + ":";
        ret := ret + mPortStr;
      }
    }

    /** unparse, with no flags. */
    method Unparse() returns (ret: string)
      ensures ret == Text(Fields())
    {
      hide Text, DefaultPort, Front;
      ret := UnparseFront();
      ghost var a := ret;
      if mPath != "" {
        ret := ret + mPath;
      }
      ghost var b := ret;
      if mExistsQuery {
        ret := ret + "?";
        ret := ret + mQuery;
      }
      ghost var c := ret;
      if mExistsFragment {
        ret := ret + "#";
        ret := ret + mFragment;
      }
      Pieces(Fields(), a, b, c);
    }
  }

  /** What is appended, piece by piece. */
  lemma Pieces(p: Parts, a: string, b: string, c: string)
    requires a == Front(p)
    requires b == a + p.path && c == (if p.hasQuery then b + "?" + p.query else b)
    ensures (if p.hasFragment then c + "#" + p.fragment else c) == Text(p)
  {
    hide DefaultPort, Front;
    var q, f := if p.hasQuery then "?" + p.query else "", if p.hasFragment then "#" + p.fragment else "";
    Regroup(b, "?", p.query);
    Regroup(c, "#", p.fragment);
    assert c == b + q;
    Regroup4(a, p.path, q, f);
  }

  /** The part of init that looks for a scheme. */
  method FindScheme(uri: string) returns (e: Option<nat>)
    requires uri != "" && NUL !in uri
    ensures e == SchemeEnd(uri)
  {
    if uri[0] == '/' || !IsAlpha(uri[0]) {
      return None;
    }
    var s := 0;
    while At(uri, s) != NUL && !SchemeStop(uri[s])
      invariant s <= |uri| && forall k :: 0 <= k < s ==> !SchemeStop(uri[k])
      decreases |uri| - s
    {
      s := s + 1;
    }
    UntilIs(uri, 0, s, SchemeStop);
    assert s + 3 <= |uri| ==> uri[s..s+3] == [uri[s], uri[s+1], uri[s+2]];
    if s == 0 || At(uri, s) != ':' || At(uri, s + 1) != '/' || At(uri, s + 2) != '/' {
      return None;
    }
    e := Some(s);
  }

  /** port_of_Scheme: the loop over the table. */
  method PortOf(schemes: seq<(string, nat)>, scheme: string) returns (port: nat)
    ensures port == PortIn(schemes, scheme)
  {
    hide EqualsIgnoreCase;
    var i := 0;
    while i < |schemes|
      invariant i <= |schemes| && PortIn(schemes, scheme) == PortIn(schemes[i..], scheme)
    {
      if EqualsIgnoreCase(scheme, schemes[i].0) {
        return schemes[i].1;
      }
      i := i + 1;
    }
    port := 0;
  }

  /** default_port_for_scheme. */
  method PortOfScheme(scheme: string) returns (port: nat)
    ensures port == DefaultPort(scheme)
  {
    hide PortIn;
    port := PortOf(SCHEMES, scheme);
  }
}
