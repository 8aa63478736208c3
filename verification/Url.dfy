/** Url: its parts, its text, and the parser of that text. The parser uses strchrn, which stops at a NUL, and strtoul,
    which reads on behind the address. */
module Url {
  import opened CText

  type Port = n: nat | n < 0x1_0000

  const HTTP_DEFAULT_PORT: Port := 80
  const HTTP_SECURE_PORT: Port := 443

  datatype Parts = Parts(secure: bool, host: string, port: Port, path: string, query: string)

  /** clear(). */
  const EMPTY := Parts(false, "", HTTP_DEFAULT_PORT, "/", "")

  function DefaultPort(secure: bool): Port {
    if secure then HTTP_SECURE_PORT else HTTP_DEFAULT_PORT
  }

  // Printing

  function SchemeText(secure: bool): string {
    if secure then "https://" else "http://"
  }

  function PortText(u: Parts): string {
    if u.port == DefaultPort(u.secure) then "" else ":" + DecimalText(u.port)
  }

  /** do_get_url. */
  function Print(u: Parts): string {
    SchemeText(u.secure) + (u.host + PortText(u)) + (u.path + u.query)
  }

  // Parsing

  /** ascnicmp(...) == 0 for the first characters of a C string. */
  predicate StartsNoCase(s: string, prefix: string) {
    |prefix| <= |s| && EqualsNoCase(s[..|prefix|], prefix)
  }

  /** Where the user information of an address ends. */
  function AfterAt(address: string): (n: nat)
    ensures n <= |address|
  {
    match StrChrN(address, '@')
    case None => 0
    case Some(i) => i + 1
  }

  /** do_set_address; `after` is the text behind the address. */
  function WithAddress(u: Parts, address: string, after: string): Parts {
    var s := address[AfterAt(address)..];
    match StrChrN(s, ':')
    case None => u.(host := s, port := DefaultPort(u.secure))
    case Some(i) => u.(host := s[..i], port := StrToUL((s + after)[i + 1..], 10).value % 0x1_0000)
  }

  function QueryStart(s: string): (n: nat)
    ensures n <= |s|
  {
    StrChrN(s, '?').GetOr(|s|)
  }

  /** do_set_full_path. */
  function WithFullPath(u: Parts, s: string): Parts {
    var n := QueryStart(s);
    u.(path := if n == 0 then "/" else s[..n], query := s[n..])
  }

  function PathStart(s: string): (n: nat)
    ensures n <= |s|
  {
    StrChrN(s, '/').GetOr(|s|)
  }

  function AfterScheme(u: Parts, s: string): Parts {
    var n := PathStart(s);
    WithFullPath(WithAddress(u, s[..n], s[n..]), s[n..])
  }

  /** do_set_url. */
  function Parse(u: Parts, s: string): Parts {
    if StartsNoCase(s, "http://") then AfterScheme(u.(secure := false), s[7..])
    else if StartsNoCase(s, "https://") then AfterScheme(u.(secure := true), s[8..])
    else EMPTY
  }

  lemma {:induction false} AddressForgets(u: Parts, v: Parts, address: string, after: string)
    requires u.secure == v.secure
    ensures var a, b := WithAddress(u, address, after), WithAddress(v, address, after);
            a.secure == b.secure && a.host == b.host && a.port == b.port
  {
    hide StrChrN, StrToUL, AfterAt;
  }

  lemma {:induction false} AfterSchemeForgets(u: Parts, v: Parts, s: string)
    requires u.secure == v.secure
    ensures AfterScheme(u, s) == AfterScheme(v, s)
  {
    hide WithAddress, PathStart, QueryStart;
    var n := PathStart(s);
    AddressForgets(u, v, s[..n], s[n..]);
  }

  /** Nothing of the old parts is left. */
  lemma {:induction false} ParseForgets(u: Parts, v: Parts, s: string)
    ensures Parse(u, s) == Parse(v, s)
  {
    hide AfterScheme, EqualsNoCase;
    if StartsNoCase(s, "http://") {
      AfterSchemeForgets(u.(secure := false), v.(secure := false), s[7..]);
    } else if StartsNoCase(s, "https://") {
      AfterSchemeForgets(u.(secure := true), v.(secure := true), s[8..]);
    }
  }

  // A printed URL reads back

  /** The hosts, paths and queries that survive printing. */
  predicate Readable(u: Parts) {
    (forall c | c in u.host :: c != '/' && c != ':' && c != '@' && c != '\0')
    && u.path != "" && u.path[0] == '/' && '?' !in CStr(u.path)
    && (u.query != "" ==> u.query[0] == '?' && '\0' !in u.path)
  }

  lemma {:induction false} NotFound(s: string, ch: char)
    requires ch !in s
    ensures StrChrN(s, ch) == None
  {
  }

  /** strtoul stops at the first character that is no digit. */
  lemma {:induction false} ScanStops(d: string, rest: string)
    requires d != "" && (forall i | 0 <= i < |d| :: IsDigit(d[i], 10)) && Value(d, 10) <= ULONG_MAX
    requires rest == "" || !IsDigit(rest[0], 10)
    ensures StrToUL(d + rest, 10).value == Value(d, 10)
  {
    hide Value, StrToUL;
    StrToULText("", d, rest, 10);
    assert "" + d + rest == d + rest;
  }

  lemma {:induction false} PortReadsBack(u: Parts, rest: string)
    requires u.port != DefaultPort(u.secure) && (rest == "" || !IsDigit(rest[0], 10))
    ensures StrToUL(PortText(u)[1..] + rest, 10).value % 0x1_0000 == u.port
  {
    hide StrToUL;
    var d := DecimalText(u.port);
    assert PortText(u)[1..] == d;
    DecimalTextValue(u.port);
    ScanStops(d, rest);
  }

  lemma {:induction false} PortTextChars(u: Parts)
    ensures var p := PortText(u);
            p != "" ==> p[0] == ':' && forall i | 1 <= i < |p| :: IsDigit(p[i], 10)
    ensures forall c | c in PortText(u) :: c != '/' && c != '@' && c != '\0'
  {
    var p := PortText(u);
    if p != "" {
      var d := DecimalText(u.port);
      forall i | 1 <= i < |p| ensures IsDigit(p[i], 10) {
        assert p[i] == d[i - 1];
      }
      forall i | 0 <= i < |p| ensures p[i] != '/' && p[i] != '@' && p[i] != '\0' {
        if i > 0 { assert IsDigit(p[i], 10); }
      }
    }
  }

  /** An address reads back, whatever path follows. */
  lemma {:induction false} AddressReadsBack(u: Parts, v: Parts, after: string)
    requires forall c | c in u.host :: c != ':' && c != '@' && c != '\0'
    requires v.secure == u.secure && after != "" && after[0] == '/'
    ensures WithAddress(v, u.host + PortText(u), after) == v.(host := u.host, port := u.port)
  {
    hide StrToUL, StrChrN, PortText;
    var p := PortText(u);
    var s := u.host + p;
    PortTextChars(u);
    NotFound(s, '@');
    assert s[0..] == s;
    if u.port == DefaultPort(u.secure) {
      assert p == "" by { NoPortText(u); }
      assert s == u.host;
      NotFound(s, ':');
    } else {
      assert p != "" by { SomePortText(u); }
      assert s == u.host + [':'] + p[1..];
      StrChrNFinds(u.host, ':', p[1..]);
      assert s[..|u.host|] == u.host;
      assert (s + after)[|u.host| + 1..] == p[1..] + after;
      PortReadsBack(u, after);
    }
  }

  lemma {:induction false} NoPortText(u: Parts)
    requires u.port == DefaultPort(u.secure)
    ensures PortText(u) == ""
  {
  }

  lemma {:induction false} SomePortText(u: Parts)
    requires u.port != DefaultPort(u.secure)
    ensures PortText(u) != ""
  {
  }

  lemma {:induction false} FullPathReadsBack(u: Parts, v: Parts)
    requires Readable(u)
    ensures WithFullPath(v, u.path + u.query) == v.(path := u.path, query := u.query)
  {
    hide StrChrN;
    var s := u.path + u.query;
    if u.query == "" {
      assert s == u.path;
      StrChrNMeans(s, '?');
    } else {
      assert s == u.path + ['?'] + u.query[1..];
      StrChrNFinds(u.path, '?', u.query[1..]);
    }
    assert s[..|u.path|] == u.path && s[|u.path|..] == u.query;
  }

  lemma {:induction false} SchemeReadsBack(u: Parts, v: Parts, rest: string)
    ensures Parse(v, SchemeText(u.secure) + rest) == AfterScheme(v.(secure := u.secure), rest)
  {
    hide AfterScheme;
    var s := SchemeText(u.secure) + rest;
    if u.secure {
      assert s[..8] == "https://" && s[8..] == rest;
      assert Lower(s[..7][4]) == 's' && Lower("http://"[4]) == ':';
    } else {
      assert s[..7] == "http://" && s[7..] == rest;
    }
  }

  /** Printing then parsing gives back every part, with the default port left out and put back. */
  lemma {:induction false} PrintReadsBack(u: Parts, v: Parts)
    requires Readable(u)
    ensures Parse(v, Print(u)) == u
  {
    hide StrChrN, WithAddress, WithFullPath, PortText, SchemeText;
    var address, full := u.host + PortText(u), u.path + u.query;
    var s := address + full;
    assert Print(u) == SchemeText(u.secure) + s;
    SchemeReadsBack(u, v, s);
    PortTextChars(u);
    assert s == address + ['/'] + full[1..];
    StrChrNFinds(address, '/', full[1..]);
    assert s[..|address|] == address && s[|address|..] == full;
    AddressReadsBack(u, v.(secure := u.secure), full);
    FullPathReadsBack(u, v.(secure := u.secure, host := u.host, port := u.port));
  }

  // Nothing else reads back

  /** Without NULs the host found by the parser has no slash or colon in it, and is not longer than the text after
      the user information. */
  lemma {:induction false} ParsedHost(v: Parts, address: string, after: string)
    requires '/' !in address && '\0' !in address
    ensures var w := WithAddress(v, address, after);
            '/' !in w.host && ':' !in w.host && w.host <= address[AfterAt(address)..]
            && (AfterAt(address) == 0 ==> '@' !in w.host)
  {
    hide StrToUL, StrChrN;
    var s := address[AfterAt(address)..];
    assert '\0' !in s && '/' !in s;
    if AfterAt(address) == 0 {
      assert s == address;
    }
  }

  /** An at sign costs the host its start. */
  lemma {:induction false} AtShortensHost(u: Parts, v: Parts, after: string)
    requires '\0' !in u.host && ':' !in u.host && '@' in u.host
    ensures |WithAddress(v, u.host + PortText(u), after).host| < |u.host|
  {
    hide StrToUL, StrChrN, PortText;
    var p := PortText(u);
    var address := u.host + p;
    PortTextChars(u);
    assert '@' in address && '\0' !in address;
    var i := StrChrN(address, '@').value;
    assert '@' !in p && i < |u.host|;
    var s := address[i + 1..];
    assert s == u.host[i + 1..] + p;
    if p != "" {
      assert s[|u.host| - i - 1] == ':';
    }
  }

  /** A full path is split in front of its first question mark, not looking past a NUL. */
  lemma {:induction false} ParsedFullPath(v: Parts, s: string)
    requires s != "" && s[0] == '/'
    ensures var w := WithFullPath(v, s);
            w.path + w.query == s && w.path != "" && w.path[0] == '/' && '?' !in CStr(w.path)
            && (w.query != "" ==> w.query[0] == '?' && '\0' !in w.path)
  {
    hide StrChrN, CStr;
    StrChrNMeans(s, '?');
    var n := QueryStart(s);
    assert s[..n] + s[n..] == s;
    if StrChrN(s, '?').None? {
      assert s[..n] == s;
    } else {
      assert CStr(s[..n]) == s[..n];
    }
  }

  /** Only readable parts are given back. */
  lemma {:induction false} OnlyReadableReadsBack(u: Parts, v: Parts)
    requires Parse(v, Print(u)) == u
    ensures Readable(u)
  {
    hide *;
    var address, full := u.host + PortText(u), u.path + u.query;
    assert Print(u) == SchemeText(u.secure) + (address + full) by { PrintSplits(u); }
    SchemeReadsBack(u, v, address + full);
    SlashStartsPath(u, v.(secure := u.secure));
    if '@' in u.host {
      AtShortensHost(u, v.(secure := u.secure), full);
      assert false;
    }
    ReadableParts(u);
  }

  lemma {:induction false} PrintSplits(u: Parts)
    ensures Print(u) == SchemeText(u.secure) + (u.host + PortText(u) + (u.path + u.query))
  {
    hide PortText;
    var a, b := u.host + PortText(u), u.path + u.query;
    assert SchemeText(u.secure) + a + b == SchemeText(u.secure) + (a + b);
  }

  lemma {:induction false} ReadableParts(u: Parts)
    requires '/' !in u.host && ':' !in u.host && '@' !in u.host && '\0' !in u.host
    requires u.path != "" && u.path[0] == '/' && '?' !in CStr(u.path)
    requires u.query != "" ==> u.query[0] == '?' && '\0' !in u.path
    ensures Readable(u)
  {
  }

  lemma {:induction false} SlashStartsPath(u: Parts, v: Parts)
    requires AfterScheme(v, u.host + PortText(u) + (u.path + u.query)) == u
    ensures '/' !in u.host && ':' !in u.host && '\0' !in u.host
    ensures u.path != "" && u.path[0] == '/' && '?' !in CStr(u.path)
    ensures u.query != "" ==> u.query[0] == '?' && '\0' !in u.path
    ensures WithAddress(v, u.host + PortText(u), u.path + u.query).host == u.host
  {
    hide *;
    var address, full := u.host + PortText(u), u.path + u.query;
    var s := address + full;
    var n := PathStart(s);
    AfterSchemeAt(v, s);
    var w := WithAddress(v, s[..n], s[n..]);
    KeepsHost(w, s[n..]);
    if '/' !in CStr(s) {
      SlashIsFound(u, v);
      assert false;
    }
    PathStartsAt(s);
    ParsedHost(v, s[..n], s[n..]);
    ParsedFullPath(w, s[n..]);
    PortTextChars(u);
    assert u.host <= s[..n][AfterAt(s[..n])..];
    assert '\0' !in u.host;
    assert '/' !in address && s[..|address|] == address;
    assert n == |address|;
    assert s[..n] == address && s[n..] == full;
  }

  lemma {:induction false} PathStartsAt(s: string)
    requires '/' in CStr(s)
    ensures var n := PathStart(s);
            n < |s| && s[n] == '/' && '/' !in s[..n] && '\0' !in s[..n]
  {
    hide StrChrN, CStr;
    StrChrNMeans(s, '/');
  }

  /** If the parser of a printed URL finds no slash, the parts are not given back. */
  lemma {:induction false} SlashIsFound(u: Parts, v: Parts)
    requires AfterScheme(v, u.host + PortText(u) + (u.path + u.query)) == u
    ensures '/' in CStr(u.host + PortText(u) + (u.path + u.query))
  {
    hide AfterScheme, CStr, PortText, WithAddress;
    var address := u.host + PortText(u);
    var s := address + (u.path + u.query);
    if '/' !in CStr(s) {
      NoSlash(v, s);
      CStrConcat(address, u.path + u.query);
      PortTextChars(u);
      assert u.path + u.query == "/";
      OneSlash();
      assert '\0' in u.host;
      NulHost(u, v);
    }
  }

  lemma {:induction false} OneSlash()
    ensures CStr("/") == "/"
  {
  }

  lemma {:induction false} NoSlash(v: Parts, s: string)
    requires '/' !in CStr(s)
    ensures var w := AfterScheme(v, s);
            w.path == "/" && w.query == "" && w.host == WithAddress(v, s, "").host
  {
    hide CStr, WithAddress;
    StrChrNMeans(s, '/');
    assert s[..|s|] == s && s[|s|..] == "";
  }

  /** A text that goes on as it began, one period later, has only the characters of its last period. */
  lemma {:induction false} Periodic(t: string, m: nat, i: nat, ch: char)
    requires 0 < m <= |t| && i < |t| && ch !in t[|t| - m..]
    requires forall k | 0 <= k < |t| - m :: t[k] == t[k + m]
    ensures t[i] != ch
    decreases |t| - i
  {
    if i < |t| - m {
      Periodic(t, m, i + m, ch);
    } else {
      assert t[i] == t[|t| - m..][i - (|t| - m)];
    }
  }

  lemma {:induction false} Shifted(host: string, p: string, a: nat)
    requires 0 < a <= |host + p| && (host + p)[a..] == host && '@' !in p
    ensures (host + p)[a - 1] != '@'
  {
    var t := host + p;
    assert |p| == a && t[|t| - a..] == p;
    forall k | 0 <= k < |t| - a ensures t[k] == t[k + a] {
      assert t[k + a] == t[a..][k];
    }
    Periodic(t, a, a - 1, '@');
  }

  /** A host with a NUL in it is not given back: its NUL hides the slash and the colon behind it. */
  lemma {:induction false} NulHost(u: Parts, v: Parts)
    requires '\0' in u.host
    ensures WithAddress(v, u.host + PortText(u) + "/", "").host != u.host
  {
    hide StrChrN, StrToUL, PortText, CStr;
    var p := PortText(u) + "/";
    var t := u.host + p;
    assert t == u.host + PortText(u) + "/";
    PortTextChars(u);
    NulAddress(v, u.host, p);
  }

  lemma {:induction false} NulAddress(v: Parts, host: string, p: string)
    requires '\0' in host && '@' !in p && p != ""
    ensures WithAddress(v, host + p, "").host != host
  {
    hide StrChrN, StrToUL, CStr;
    var t := host + p;
    var a := AfterAt(t);
    var s := t[a..];
    StrChrNMeans(s, ':');
    if StrChrN(s, ':').None? && a > 0 {
      assert t[a - 1] == '@';
      if s == host {
        Shifted(host, p, a);
        assert false;
      }
    }
  }

  lemma {:induction false} AfterSchemeAt(v: Parts, s: string)
    ensures var n := PathStart(s);
            AfterScheme(v, s) == WithFullPath(WithAddress(v, s[..n], s[n..]), s[n..])
  {
  }

  lemma {:induction false} KeepsHost(w: Parts, s: string)
    ensures WithFullPath(w, s).host == w.host
  {
  }

  /** A URL survives printing and parsing exactly when it is readable. */
  lemma {:induction false} ReadsBackIff(u: Parts, v: Parts)
    ensures Parse(v, Print(u)) == u <==> Readable(u)
  {
    hide *;
    if Readable(u) {
      PrintReadsBack(u, v);
    }
    if Parse(v, Print(u)) == u {
      OnlyReadableReadsBack(u, v);
    }
  }

  // What is read from text that anybody may have written

  predicate PlainHost(s: string) {
    '/' !in s && ':' !in s && '@' !in s && '\0' !in s
  }

  /** User information and the at sign behind it, or nothing. */
  predicate UserText(s: string) {
    s == "" || (s[|s| - 1] == '@' && '@' !in s[..|s| - 1] && '/' !in s && '\0' !in s)
  }

  /** A colon and a number, or nothing. */
  predicate PortDigits(s: string) {
    s == "" || (|s| > 1 && s[0] == ':' && forall i | 1 <= i < |s| :: '0' <= s[i] <= '9')
  }

  /** The port that an address says: the default one without a number, and the low 16 bits of the number. */
  function PortSaid(secure: bool, s: string): Port
    requires PortDigits(s)
  {
    if s == "" then if secure then 443 else 80
    else var n := Value(s[1..], 10); (if n > 0xFFFF_FFFF then 0xFFFF_FFFF else n) % 0x1_0000
  }

  lemma {:induction false} UserIsSkipped(user: string, rest: string)
    requires UserText(user) && '@' !in rest
    ensures AfterAt(user + rest) == |user| && (user + rest)[|user|..] == rest
  {
    hide StrChrN;
    if user == "" {
      assert user + rest == rest;
      NotFound(rest, '@');
    } else {
      var name := user[..|user| - 1];
      assert user + rest == name + ['@'] + rest;
      StrChrNFinds(name, '@', rest);
    }
  }

  lemma {:induction false} NoAtSign(host: string, port: string)
    requires PlainHost(host) && PortDigits(port)
    ensures '@' !in host + port && '/' !in host + port && '\0' !in host + port
  {
  }

  lemma {:induction false} AddressIsRead(v: Parts, user: string, host: string, port: string, after: string)
    requires UserText(user) && PlainHost(host) && PortDigits(port)
    requires after == "" || after[0] == '/'
    ensures WithAddress(v, user + host + port, after) == v.(host := host, port := PortSaid(v.secure, port))
  {
    hide StrToUL, StrChrN, Value, AfterAt, UserText, PlainHost;
    assert user + host + port == user + (host + port);
    NoAtSign(host, port);
    UserIsSkipped(user, host + port);
    HostIsRead(host, port, after);
  }

  /** The colon of an address and what stands around it. */
  lemma {:induction false} HostIsRead(host: string, port: string, after: string)
    requires PlainHost(host) && PortDigits(port) && (after == "" || after[0] == '/')
    ensures StrChrN(host + port, ':') == if port == "" then None else Some(|host|)
    ensures (host + port)[..|host|] == host && (port == "" ==> host + port == host)
    ensures port != "" ==>
              var n := Value(port[1..], 10);
              StrToUL((host + port + after)[|host| + 1..], 10).value == if n > 0xFFFF_FFFF then 0xFFFF_FFFF else n
  {
    hide StrToUL, StrChrN, Value;
    if port == "" {
      NotFound(host + port, ':');
    } else {
      assert host + port == host + [':'] + port[1..];
      StrChrNFinds(host, ':', port[1..]);
      assert (host + port + after)[|host| + 1..] == port[1..] + after;
      assert forall i | 0 <= i < |port[1..]| :: IsDigit(port[1..][i], 10);
      StrToULText("", port[1..], after, 10);
      assert "" + port[1..] + after == port[1..] + after;
    }
  }

  lemma {:induction false} PathIsRead(w: Parts, path: string, query: string)
    requires path == "" ==> query == ""
    requires '?' !in path && '\0' !in path && (query == "" || query[0] == '?')
    ensures WithFullPath(w, path + query) == w.(path := if path == "" then "/" else path, query := query)
  {
    hide StrChrN;
    var s := path + query;
    if query == "" {
      assert s == path;
      NotFound(s, '?');
    } else {
      assert s == path + ['?'] + query[1..];
      StrChrNFinds(path, '?', query[1..]);
    }
    assert s[..|path|] == path && s[|path|..] == query;
  }

  lemma {:induction false} PartsAreRead(v: Parts, user: string, host: string, port: string, path: string, query: string)
    requires UserText(user) && PlainHost(host) && PortDigits(port)
    requires path == "" ==> query == ""
    requires path != "" ==> path[0] == '/' && '?' !in path && '\0' !in path && (query == "" || query[0] == '?')
    ensures AfterScheme(v, user + host + port + (path + query)) ==
            v.(host := host, port := PortSaid(v.secure, port), path := if path == "" then "/" else path, query := query)
  {
    hide StrChrN, WithAddress, WithFullPath, PortSaid;
    var address, full := user + host + port, path + query;
    var s := address + full;
    NoAtSign(host, port);
    assert address == user + (host + port);
    assert '/' !in address && '\0' !in address;
    if full == "" {
      assert s == address;
      NotFound(s, '/');
    } else {
      assert s == address + ['/'] + full[1..];
      StrChrNFinds(address, '/', full[1..]);
    }
    assert s[..|address|] == address && s[|address|..] == full;
    AddressIsRead(v, user, host, port, full);
    PathIsRead(v.(host := host, port := PortSaid(v.secure, port)), path, query);
  }

  /** The scheme in any case, user information that is skipped, host, port, path and query: each goes where it
      belongs. */
  lemma {:induction false} TextIsRead(v: Parts, scheme: string, user: string, host: string, port: string, path: string,
                                      query: string)
    requires Spelled(scheme, "http://", "HTTP://") || Spelled(scheme, "https://", "HTTPS://")
    requires UserText(user) && PlainHost(host) && PortDigits(port)
    requires path == "" ==> query == ""
    requires path != "" ==> path[0] == '/' && '?' !in path && '\0' !in path && (query == "" || query[0] == '?')
    ensures var secure := |scheme| == 8;
            Parse(v, scheme + (user + host + port + (path + query))) ==
            Parts(secure, host, PortSaid(secure, port), if path == "" then "/" else path, query)
  {
    hide AfterScheme, EqualsNoCase, PortSaid, UserText, PlainHost, PortDigits;
    var rest := user + host + port + (path + query);
    var secure := |scheme| == 8;
    SchemeIsRead(v, scheme, rest);
    PartsAreRead(v.(secure := secure), user, host, port, path, query);
  }

  lemma {:induction false} SchemeIsRead(v: Parts, scheme: string, rest: string)
    requires Spelled(scheme, "http://", "HTTP://") || Spelled(scheme, "https://", "HTTPS://")
    ensures Parse(v, scheme + rest) == AfterScheme(v.(secure := |scheme| == 8), rest)
  {
    hide AfterScheme, EqualsNoCase;
    var s := scheme + rest;
    assert s[|scheme|..] == rest && s[..|scheme|] == scheme;
    EqualsNoCaseIff(s[..7], "http://", "http://", "HTTP://");
    if |scheme| == 8 {
      EqualsNoCaseIff(scheme, "https://", "https://", "HTTPS://");
      assert s[..7][4] == scheme[4];
    }
  }

  /** A text that starts with neither scheme is no URL. */
  lemma {:induction false} OtherTextIsNone(v: Parts, s: string)
    requires |s| >= 7 ==> !Spelled(s[..7], "http://", "HTTP://")
    requires |s| >= 8 ==> !Spelled(s[..8], "https://", "HTTPS://")
    ensures Parse(v, s) == Parts(false, "", 80, "/", "")
  {
    hide AfterScheme, EqualsNoCase, Spelled;
    if |s| >= 7 {
      EqualsNoCaseIff(s[..7], "http://", "http://", "HTTP://");
    }
    if |s| >= 8 {
      EqualsNoCaseIff(s[..8], "https://", "https://", "HTTPS://");
    }
  }

  /** Dropping the start of a text and shortening its length by as much. */
  lemma {:induction false} SkipStart(val: string, len: nat, k: nat)
    requires k <= len <= |val|
    ensures val[k..][..len - k] == val[..len][k..]
    ensures val[k..] == val[k..][..len - k] + val[len..]
  {
  }

  // The class

  class Url {
    var secure: bool
    var host: string
    var port: Port
    var path: string
    var query: string

    ghost function View(): Parts
      reads this
    {
      Parts(secure, host, port, path, query)
    }

    /** Url(url). */
    constructor (url: string)
      ensures View() == Parse(EMPTY, url)
    {
      new;
      ParseForgets(View(), EMPTY, url);
      DoSetUrl(url);
    }

    method Clear()
      modifies this
      ensures View() == EMPTY
    {
      host, port, secure, path, query := "", HTTP_DEFAULT_PORT, false, "/", "";
    }

    method DoSetUrl(url: string)
      modifies this
      ensures View() == Parse(old(View()), url)
    {
      hide WithAddress, WithFullPath, StrChrN, EqualsNoCase;
      var val := url;
      if StartsNoCase(val, "http://") {
        val := val[7..];
        secure := false;
      } else if StartsNoCase(val, "https://") {
        val := val[8..];
        secure := true;
      } else {
        Clear();
        return;
      }
      var start := StrChrN(val, '/').GetOr(|val|);
      DoSetAddress(val, start);
      DoSetFullPath(val[start..]);
    }

    /** `len` characters of the C string `val` are the address. */
    method DoSetAddress(val: string, len: nat)
      requires len <= |val|
      modifies this
      ensures View() == WithAddress(old(View()), val[..len], val[len..])
    {
      hide StrChrN, StrToUL, EMPTY, DefaultPort;
      var s, n := val, len;
      var at := StrChrN(s[..n], '@');
      if at.Some? {
        n := n - (at.value + 1);
        s := s[at.value + 1..];
      }
      SkipStart(val, len, len - n);
      assert AfterAt(val[..len]) == len - n;
      var colon := StrChrN(s[..n], ':');
      if colon.Some? {
        host := s[..colon.value];
        assert host == s[..n][..colon.value];
        port := StrToUL(s[colon.value + 1..], 10).value % 0x1_0000;
      } else {
        host := s[..n];
        port := DefaultPort(secure);
      }
    }

    method DoSetFullPath(val: string)
      requires QueryStart(val) > 0 ==> val[0] == '/'
      modifies this
      ensures View() == WithFullPath(old(View()), val)
    {
      var start := StrChrN(val, '?').GetOr(|val|);
      if start == 0 {
        path := "/";
      } else {
        path := val[..start];
      }
      query := val[start..];
    }

    method DoGetUrl() returns (val: string)
      ensures val == Print(View())
      ensures val == (if secure then "https://" else "http://")
                     + (host + if port == (if secure then 443 else 80) then "" else ":" + DecimalText(port))
                     + (path + query)
    {
      hide DecimalText;
      val := if secure then "https://" else "http://";
      var address := DoGetAddress();
      var full := DoGetFullPath();
      val := val + address + full;
    }

    method DoGetAddress() returns (val: string)
      ensures val == host + PortText(View())
    {
      val := host;
      if port != DefaultPort(secure) {
        val := val + (":" + DecimalText(port));
      }
    }

    method DoGetFullPath() returns (val: string)
      ensures val == path + query
    {
      val := path + query;
    }
  }
}
