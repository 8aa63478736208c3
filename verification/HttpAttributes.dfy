/** Attribute lists such as the challenges and answers of HTTP authentication: the parser, and the
    header that the Digest branch of HttpAuthenticate prints. Quoted strings are those of section 2.2 of
    RFC 2616; the Digest header is that of section 3.2.2 of RFC 2617. */
module HttpAttributes {
  import opened CText
  import Base64

  datatype Attribute = Attribute(name: string, value: string)

  /** IsEndOfAttributeName at the front of `s`: at the end, at white space, and at an equal sign that is
      followed by something other than white space or another one. */
  predicate NameEndsAt(s: string) {
    s == "" || IsSpace(s[0]) || (|s| > 1 && s[0] == '=' && !IsSpace(s[1]) && s[1] != '=')
  }

  function NameLength(s: string): (n: nat)
    ensures n <= |s|
  {
    if NameEndsAt(s) then 0 else 1 + NameLength(s[1..])
  }

  /** A value and the text behind it. */
  datatype Scanned = Scanned(value: string, rest: string)

  /** The text after an opening quote: a backslash takes the next character as it is. */
  function ScanQuoted(s: string): (r: Scanned)
    ensures |r.rest| <= |s|
  {
    if s == "" then Scanned("", "")
    else if s[0] == '"' then Scanned("", s[1..])
    else if s[0] == '\\' && |s| > 1 then
      var r := ScanQuoted(s[2..]);
      Scanned([s[1]] + r.value, r.rest)
    else
      var r := ScanQuoted(s[1..]);
      Scanned([s[0]] + r.value, r.rest)
  }

  predicate TokenEndsAt(s: string) {
    s == "" || IsSpace(s[0]) || s[0] == ','
  }

  function ScanToken(s: string): (r: Scanned)
    ensures |r.rest| <= |s|
  {
    if TokenEndsAt(s) then Scanned("", s)
    else
      var r := ScanToken(s[1..]);
      Scanned([s[0]] + r.value, r.rest)
  }

  /** The value of an attribute, if an equal sign follows its name. */
  function ScanValue(s: string): (r: Scanned)
    ensures |r.rest| <= |s|
    ensures s != "" && s[0] == '=' ==> |r.rest| < |s|
  {
    if s == "" || s[0] != '=' then Scanned("", s)
    else if |s| > 1 && s[1] == '"' then ScanQuoted(s[2..])
    else ScanToken(s[1..])
  }

  function SkipComma(s: string): (r: string)
    ensures |r| <= |s|
  {
    if s != "" && s[0] == ',' then s[1..] else s
  }

  lemma {:induction false} NameOrValueAdvances(s: string)
    requires s != "" && !IsSpace(s[0])
    ensures |ScanValue(s[NameLength(s)..]).rest| < |s|
  {
  }

  /** HttpParseAttributes as a function of the text that is left. */
  function Parse(s: string): seq<Attribute>
    decreases |s|
  {
    var t := s[SpaceRun(s)..];
    if t == "" then []
    else
      NameOrValueAdvances(t);
      var n := NameLength(t);
      var v := ScanValue(t[n..]);
      [Attribute(t[..n], v.value)] + Parse(SkipComma(v.rest))
  }

  lemma {:induction false} ParseAtName(t: string)
    requires t != "" && !IsSpace(t[0])
    ensures var n := NameLength(t);
            var v := ScanValue(t[n..]);
            Parse(t) == [Attribute(t[..n], v.value)] + Parse(SkipComma(v.rest))
  {
    hide NameLength, ScanValue, SkipComma;
    assert SpaceRun(t) == 0 && t[0..] == t;
  }

  // Printing

  /** quote(): the text between the quotes. */
  function Escape(s: string): string {
    if s == "" then ""
    else (if s[0] == '"' || s[0] == '\\' then ['\\', s[0]] else [s[0]]) + Escape(s[1..])
  }

  function Quote(s: string): string {
    "\"" + Escape(s) + "\""
  }

  /** Quoting goes character by character and puts a backslash in front of quotes and backslashes only. */
  lemma {:induction false} QuoteIs(s: string, c: char)
    ensures Quote(s) == ['"'] + Escape(s) + ['"'] && Escape("") == ""
    ensures Escape(s + [c]) == Escape(s) + if c == '"' || c == '\\' then ['\\', c] else [c]
  {
    if s == "" {
      assert "" + [c] == [c] && [c][1..] == "";
    } else {
      assert (s + [c])[1..] == s[1..] + [c];
      QuoteIs(s[1..], c);
    }
  }

  /** What is printed for an attribute: a quoted value or a bare one. */
  datatype Item = Quoted(name: string, value: string) | Bare(name: string, value: string)
  {
    function Attr(): Attribute {
      Attribute(name, value)
    }

    function Text(): string {
      name + "=" + if Quoted? then Quote(value) else value
    }
  }

  function Items(items: seq<Item>): string {
    if items == [] then "" else ", " + items[0].Text() + Items(items[1..])
  }

  function Attrs(items: seq<Item>): seq<Attribute> {
    if items == [] then [] else [items[0].Attr()] + Attrs(items[1..])
  }

  /** A scheme, a space, and items separated by commas. */
  function HeaderText(scheme: string, items: seq<Item>): string
    requires items != []
  {
    scheme + " " + items[0].Text() + Items(items[1..])
  }

  predicate PlainName(s: string) {
    s != "" && forall c | c in s :: !IsSpace(c) && c != '='
  }

  predicate PlainToken(s: string) {
    s != "" && s[0] != '"' && s[0] != '=' && forall c | c in s :: !IsSpace(c) && c != ','
  }

  predicate PlainItem(i: Item) {
    PlainName(i.name) && (i.Bare? ==> PlainToken(i.value))
  }

  // Parsing reads back what was printed

  /** One character, escaped where it must be, is scanned as itself. */
  lemma {:induction false} EscapedChar(c: char, more: string)
    ensures var r := ScanQuoted(more);
            ScanQuoted((if c == '"' || c == '\\' then ['\\', c] else [c]) + more) == Scanned([c] + r.value, r.rest)
  {
    if c == '"' || c == '\\' {
      assert (['\\', c] + more)[2..] == more;
    } else {
      assert ([c] + more)[1..] == more;
    }
  }

  lemma {:induction false} QuotedReadsBack(v: string, rest: string)
    ensures ScanQuoted(Escape(v) + "\"" + rest) == Scanned(v, rest)
  {
    var s := Escape(v) + "\"" + rest;
    if v == "" {
      assert s == "\"" + rest && s[1..] == rest;
    } else {
      hide ScanQuoted;
      var more := Escape(v[1..]) + "\"" + rest;
      QuotedReadsBack(v[1..], rest);
      EscapedChar(v[0], more);
      assert s == (if v[0] == '"' || v[0] == '\\' then ['\\', v[0]] else [v[0]]) + more;
      assert [v[0]] + v[1..] == v;
    }
  }

  lemma {:induction false} TokenReadsBack(v: string, rest: string)
    requires forall c | c in v :: !IsSpace(c) && c != ','
    requires TokenEndsAt(rest)
    ensures ScanToken(v + rest) == Scanned(v, rest)
  {
    if v == "" {
      assert v + rest == rest;
    } else {
      assert v[0] in v && (v + rest)[1..] == v[1..] + rest;
      TokenReadsBack(v[1..], rest);
      assert [v[0]] + v[1..] == v;
    }
  }

  lemma {:induction false} NameReadsBack(name: string, rest: string)
    requires forall c | c in name :: !IsSpace(c) && c != '='
    requires NameEndsAt(rest)
    ensures NameLength(name + rest) == |name|
  {
    if name == "" {
      assert name + rest == rest;
    } else {
      assert name[0] in name && (name + rest)[1..] == name[1..] + rest;
      NameReadsBack(name[1..], rest);
    }
  }

  /** Text that starts with an item and goes on with a comma or not at all. */
  lemma {:induction false} ItemReadsBack(i: Item, rest: string)
    requires PlainItem(i) && (rest == "" || rest[0] == ',')
    ensures Parse(i.Text() + rest) == [i.Attr()] + Parse(SkipComma(rest))
  {
    hide ScanQuoted, ScanToken, ScanValue, NameLength, NameEndsAt, Parse, Escape, SkipComma;
    var s := i.Text() + rest;
    var v := s[|i.name|..];
    assert s[..|i.name|] == i.name && s == i.name + v;
    ItemValue(i, rest);
    assert i.name[0] in i.name;
    NameReadsBack(i.name, v);
    ParseAtName(s);
  }

  lemma {:induction false} ItemValue(i: Item, rest: string)
    requires PlainItem(i) && (rest == "" || rest[0] == ',')
    ensures var v := (i.Text() + rest)[|i.name|..];
            NameEndsAt(v) && ScanValue(v) == Scanned(i.value, rest)
  {
    hide ScanQuoted, ScanToken;
    var v := (i.Text() + rest)[|i.name|..];
    if i.Quoted? {
      assert v == "=\"" + (Escape(i.value) + "\"" + rest);
      assert v[2..] == Escape(i.value) + "\"" + rest;
      QuotedReadsBack(i.value, rest);
    } else {
      assert v == "=" + (i.value + rest);
      assert v[1..] == i.value + rest;
      TokenReadsBack(i.value, rest);
    }
  }

  lemma {:induction false} SpaceIsSkipped(s: string)
    ensures Parse(" " + s) == Parse(s)
  {
    var t := " " + s;
    assert t[1..] == s;
    assert t[SpaceRun(t)..] == s[SpaceRun(s)..];
  }

  lemma {:induction false} ItemsStart(items: seq<Item>)
    requires items != []
    ensures var first, rest := items[0], Items(items[1..]);
            Items(items) != "" && Items(items)[0] == ',' && SkipComma(Items(items)) == " " + (first.Text() + rest)
    ensures Attrs(items) == [items[0].Attr()] + Attrs(items[1..])
  {
    var first, rest := items[0].Text(), Items(items[1..]);
    assert (", " + first + rest)[1..] == " " + (first + rest);
  }

  lemma {:induction false} ItemsReadBack(items: seq<Item>)
    requires forall i | i in items :: PlainItem(i)
    ensures Parse(SkipComma(Items(items))) == Attrs(items)
  {
    hide Parse, PlainItem, Item.Text;
    if items == [] {
      hide *;
      NothingToParse();
    } else {
      hide *;
      var first, rest := items[0], Items(items[1..]);
      ItemsStart(items);
      SpaceIsSkipped(first.Text() + rest);
      assert rest == "" || rest[0] == ',' by {
        if items[1..] == [] { NothingToParse(); } else { ItemsStart(items[1..]); }
      }
      ItemReadsBack(first, rest);
      ItemsReadBack(items[1..]);
    }
  }

  lemma {:induction false} NothingToParse()
    ensures Items([]) == "" && SkipComma("") == "" && Parse("") == [] && Attrs([]) == []
  {
  }

  /** A printed header parses into its scheme and its name and value pairs, whatever the quoted values contain. */
  lemma {:induction false} HeaderReadsBack(scheme: string, items: seq<Item>)
    requires PlainName(scheme) && items != [] && forall i | i in items :: PlainItem(i)
    ensures Parse(HeaderText(scheme, items)) == [Attribute(scheme, "")] + Attrs(items)
  {
    hide *;
    var first, rest := items[0].Text(), Items(items[1..]);
    assert rest == "" || rest[0] == ',' by {
      if items[1..] == [] { NothingToParse(); } else { ItemsStart(items[1..]); }
    }
    SchemeReadsBack(scheme, first + rest);
    HeaderSplits(scheme, items);
    SpaceIsSkipped(first + rest);
    ItemReadsBack(items[0], rest);
    ItemsReadBack(items[1..]);
  }

  lemma {:induction false} HeaderSplits(scheme: string, items: seq<Item>)
    requires items != []
    ensures HeaderText(scheme, items) == scheme + (" " + (items[0].Text() + Items(items[1..])))
    ensures Attrs(items) == [items[0].Attr()] + Attrs(items[1..])
  {
    hide Item.Text, Items;
    var first, rest := items[0].Text(), Items(items[1..]);
    assert scheme + " " + first + rest == scheme + (" " + (first + rest));
  }

  lemma {:induction false} SchemeReadsBack(scheme: string, rest: string)
    requires PlainName(scheme)
    ensures Parse(scheme + (" " + rest)) == [Attribute(scheme, "")] + Parse(" " + rest)
  {
    var s := scheme + (" " + rest);
    assert scheme[0] in scheme;
    assert SpaceRun(s) == 0 && s[0..] == s;
    NameReadsBack(scheme, " " + rest);
    assert s[..|scheme|] == scheme && s[|scheme|..] == " " + rest;
  }

  lemma {:induction false} EqualSignsInName(n: nat, rest: string)
    requires rest == "" || IsSpace(rest[0])
    ensures NameLength(seq(n, _ => '=') + rest) == n
    decreases n
  {
    var s := seq(n, _ => '=') + rest;
    if n > 0 {
      assert s[1..] == seq(n - 1, _ => '=') + rest;
      EqualSignsInName(n - 1, rest);
    } else {
      assert s == rest;
    }
  }

  lemma {:induction false} NameAndEqualSigns(name: string, n: nat, rest: string)
    requires (forall c | c in name :: !IsSpace(c) && c != '=') && (rest == "" || IsSpace(rest[0]))
    ensures NameLength(name + seq(n, _ => '=') + rest) == |name| + n
  {
    var s := name + seq(n, _ => '=') + rest;
    if name == "" {
      assert s == seq(n, _ => '=') + rest;
      EqualSignsInName(n, rest);
    } else {
      assert name[0] in name && s[1..] == name[1..] + seq(n, _ => '=') + rest;
      NameAndEqualSigns(name[1..], n, rest);
    }
  }

  lemma {:induction false} TokenAlone(token: string, n: nat)
    requires PlainName(token)
    ensures var whole := token + seq(n, _ => '='); Parse(whole) == [Attribute(whole, "")]
  {
    hide Parse, NameLength, IsSpace;
    var whole := token + seq(n, _ => '=');
    assert token[0] in token && whole[0] == token[0];
    NameAndEqualSigns(token, n, "");
    assert token + seq(n, _ => '=') + "" == whole;
    ParseAtName(whole);
    assert whole[..|whole|] == whole && whole[|whole|..] == "";
    NothingToParse();
  }

  /** A scheme with a bare token, such as Base64 text: equal signs at its end belong to the token. */
  lemma {:induction false} TokenKeepsEqualSigns(scheme: string, token: string, n: nat)
    requires PlainName(scheme) && PlainName(token)
    ensures var whole := token + seq(n, _ => '=');
            Parse(scheme + (" " + whole)) == [Attribute(scheme, ""), Attribute(whole, "")]
  {
    hide Parse;
    var whole := token + seq(n, _ => '=');
    SchemeReadsBack(scheme, whole);
    SpaceIsSkipped(whole);
    TokenAlone(token, n);
  }

  // The parser at work

  /** HttpParseAttributes. */
  method HttpParseAttributes(data: string) returns (attributes: seq<Attribute>)
    ensures attributes == Parse(data)
  {
    hide *;
    var pos := 0;
    attributes := [];
    assert data[0..] == data;
    while true
      invariant pos <= |data| && attributes + Parse(data[pos..]) == Parse(data)
      decreases |data| - pos
    {
      ghost var before := pos;
      pos := SkipSpace(data, pos);
      ParseFrom(data, before, pos);
      if pos >= |data| {
        return;
      }
      var start := pos;
      pos := FindNameEnd(data, pos);
      ghost var nameEnd := pos;
      var name, value := data[start..pos], "";
      if pos < |data| && data[pos] == '=' {
        pos := pos + 1;
        if pos < |data| && data[pos] == '"' {
          value, pos := ReadQuoted(data, pos);
        } else {
          value, pos := ReadToken(data, pos);
        }
      }
      ValueFrom(data, nameEnd, value, pos);
      attributes := attributes + [Attribute(name, value)];
      ghost var valueEnd := pos;
      if pos < |data| && data[pos] == ',' {
        pos := pos + 1;
      }
      NextFrom(data, start, nameEnd, value, valueEnd, pos);
    }
  }

  lemma {:induction false} ParseFrom(data: string, before: nat, pos: nat)
    requires before <= pos <= |data| && pos == before + SpaceRun(data[before..])
    ensures Parse(data[before..]) == Parse(data[pos..])
    ensures pos == |data| ==> Parse(data[pos..]) == []
    ensures pos < |data| ==> !IsSpace(data[pos])
  {
    var s, t := data[before..], data[pos..];
    assert s[SpaceRun(s)..] == t;
    if pos < |data| {
      assert SpaceRun(t) == 0 && t[0..] == t;
    }
  }

  /** What the branches of the value leave behind. */
  lemma {:induction false} ValueFrom(data: string, nameEnd: nat, value: string, pos: nat)
    requires nameEnd <= pos <= |data|
    requires if nameEnd == |data| || data[nameEnd] != '=' then pos == nameEnd && value == ""
             else if nameEnd + 1 < |data| && data[nameEnd + 1] == '"' then
               ScanQuoted(data[nameEnd + 2..]) == Scanned(value, data[pos..])
             else ScanToken(data[nameEnd + 1..]) == Scanned(value, data[pos..])
    ensures ScanValue(data[nameEnd..]) == Scanned(value, data[pos..])
  {
    hide ScanQuoted, ScanToken;
    var s := data[nameEnd..];
    if s != "" && s[0] == '=' {
      assert s[1..] == data[nameEnd + 1..];
      if |s| > 1 {
        assert s[2..] == data[nameEnd + 2..];
      }
    }
  }

  lemma {:induction false} NextFrom(data: string, start: nat, nameEnd: nat, value: string, valueEnd: nat, pos: nat)
    requires start <= nameEnd <= valueEnd <= pos <= |data| && start < |data| && !IsSpace(data[start])
    requires nameEnd == start + NameLength(data[start..])
    requires ScanValue(data[nameEnd..]) == Scanned(value, data[valueEnd..])
    requires pos == if valueEnd < |data| && data[valueEnd] == ',' then valueEnd + 1 else valueEnd
    ensures Parse(data[start..]) == [Attribute(data[start..nameEnd], value)] + Parse(data[pos..])
    ensures pos > start
  {
    hide *;
    var t, n := data[start..], nameEnd - start;
    NameOrValueAdvances(t);
    ParseAtName(t);
    assert t[..n] == data[start..nameEnd] && t[n..] == data[nameEnd..];
    assert SkipComma(data[valueEnd..]) == data[pos..] by { CommaStep(data, valueEnd); }
  }

  lemma {:induction false} CommaStep(data: string, pos: nat)
    requires pos <= |data|
    ensures SkipComma(data[pos..]) == data[if pos < |data| && data[pos] == ',' then pos + 1 else pos..]
  {
  }

  method SkipSpace(data: string, from: nat) returns (pos: nat)
    requires from <= |data|
    ensures from <= pos <= |data| && pos == from + SpaceRun(data[from..])
  {
    pos := from;
    while pos < |data| && IsSpace(data[pos])
      invariant from <= pos <= |data| && from + SpaceRun(data[from..]) == pos + SpaceRun(data[pos..])
    {
      assert data[pos..][1..] == data[pos + 1..];
      pos := pos + 1;
    }
  }

  /** IsEndOfAttributeName. */
  method IsEndOfAttributeName(pos: nat, data: string) returns (b: bool)
    requires pos <= |data|
    ensures b == NameEndsAt(data[pos..])
  {
    if pos >= |data| {
      return true;
    }
    if IsSpace(data[pos]) {
      return true;
    }
    return pos + 1 < |data| && data[pos] == '=' && !IsSpace(data[pos + 1]) && data[pos + 1] != '=';
  }

  method FindNameEnd(data: string, from: nat) returns (pos: nat)
    requires from <= |data|
    ensures from <= pos <= |data| && pos == from + NameLength(data[from..])
  {
    pos := from;
    var atEnd := IsEndOfAttributeName(pos, data);
    while !atEnd
      invariant from <= pos <= |data| && from + NameLength(data[from..]) == pos + NameLength(data[pos..])
      invariant atEnd == NameEndsAt(data[pos..])
      decreases |data| - pos, !atEnd
    {
      assert data[pos..][1..] == data[pos + 1..];
      pos := pos + 1;
      atEnd := IsEndOfAttributeName(pos, data);
    }
  }

  /** The loop over a quoted value, from its opening quote. */
  method ReadQuoted(data: string, quote: nat) returns (value: string, pos: nat)
    requires quote < |data|
    ensures quote < pos <= |data| && ScanQuoted(data[quote + 1..]) == Scanned(value, data[pos..])
  {
    hide IsSpace, ScanQuoted;
    pos, value := quote + 1, "";
    ghost var whole := ScanQuoted(data[pos..]);
    while pos < |data|
      invariant quote < pos <= |data|
      invariant var r := ScanQuoted(data[pos..]); whole == Scanned(value + r.value, r.rest)
    {
      ghost var at := pos;
      if data[pos] == '"' {
        pos := pos + 1;
        QuotedStep(data, at);
        return;
      }
      if data[pos] == '\\' && pos + 1 < |data| {
        pos := pos + 1;
      }
      value := value + [data[pos]];
      pos := pos + 1;
      QuotedStep(data, at);
    }
    QuotedStep(data, pos);
  }

  lemma {:induction false} QuotedStep(data: string, pos: nat)
    requires pos <= |data|
    ensures pos == |data| ==> ScanQuoted(data[pos..]) == Scanned("", data[pos..])
    ensures pos < |data| && data[pos] == '"' ==> ScanQuoted(data[pos..]) == Scanned("", data[pos + 1..])
    ensures pos < |data| && data[pos] != '"' ==>
              var at := if data[pos] == '\\' && pos + 1 < |data| then pos + 1 else pos;
              var r := ScanQuoted(data[at + 1..]);
              ScanQuoted(data[pos..]) == Scanned([data[at]] + r.value, r.rest)
  {
    if pos < |data| {
      assert data[pos..][1..] == data[pos + 1..];
      if pos + 1 < |data| {
        assert data[pos..][2..] == data[pos + 2..];
      }
    }
  }

  lemma {:induction false} TokenStep(data: string, pos: nat)
    requires pos <= |data|
    ensures pos < |data| && !TokenEndsAt(data[pos..]) ==>
              var r := ScanToken(data[pos + 1..]);
              ScanToken(data[pos..]) == Scanned([data[pos]] + r.value, r.rest)
    ensures TokenEndsAt(data[pos..]) ==> ScanToken(data[pos..]) == Scanned("", data[pos..])
  {
    hide IsSpace;
    if pos < |data| {
      assert data[pos..][1..] == data[pos + 1..];
    }
  }

  method ReadToken(data: string, from: nat) returns (value: string, pos: nat)
    requires from <= |data|
    ensures from <= pos <= |data| && ScanToken(data[from..]) == Scanned(value, data[pos..])
  {
    hide IsSpace, ScanToken;
    pos, value := from, "";
    while pos < |data| && !IsSpace(data[pos]) && data[pos] != ','
      invariant from <= pos <= |data|
      invariant var r := ScanToken(data[pos..]); ScanToken(data[from..]) == Scanned(value + r.value, r.rest)
    {
      TokenStep(data, pos);
      value := value + [data[pos]];
      pos := pos + 1;
    }
    TokenStep(data, pos);
  }

  // The Digest answer

  /** quote(). */
  method QuoteText(str: string) returns (result: string)
    ensures result == Quote(str)
  {
    result := "\"";
    assert str[0..] == str;
    for i := 0 to |str|
      invariant result + Escape(str[i..]) == "\"" + Escape(str)
    {
      assert str[i..][1..] == str[i + 1..];
      if str[i] == '"' || str[i] == '\\' {
        result := result + "\\";
      }
      result := result + [str[i]];
    }
    result := result + "\"";
  }

  /** HttpHasAttribute: the first value under a name. */
  function Lookup(attributes: seq<Attribute>, name: string): Option<string> {
    if attributes == [] then None
    else if attributes[0].name == name then Some(attributes[0].value)
    else Lookup(attributes[1..], name)
  }

  /** An MD5 sum is a text of hexadecimal digits. */
  predicate IsSum(s: string) {
    forall c | c in s :: IsDigit(c, 16)
  }

  lemma {:induction false} NothingToEscape(s: string)
    requires IsSum(s)
    ensures Escape(s) == s
  {
    if s != "" {
      assert s[0] in s;
      NothingToEscape(s[1..]);
      assert [s[0]] + s[1..] == s;
    }
  }

  lemma {:induction false} SchemeIsPlain(s: string)
    requires EqualsNoCase(s, "digest")
    ensures PlainName(s)
  {
    forall i | 0 <= i < |s| ensures !IsSpace(s[i]) && s[i] != '=' {
      assert Lower(s[i]) == "digest"[i];
    }
  }

  lemma {:induction false} Inserted(scheme: string, items: seq<Item>, item: Item)
    requires items != []
    ensures HeaderText(scheme, items + [item]) == HeaderText(scheme, items) + (", " + item.Text())
    ensures Attrs(items + [item]) == Attrs(items) + [item.Attr()]
  {
    ItemsAppend(items[1..], item);
    ItemsAppend(items, item);
    assert (items + [item])[1..] == items[1..] + [item];
  }

  lemma {:induction false} ItemsAppend(items: seq<Item>, item: Item)
    ensures Items(items + [item]) == Items(items) + (", " + item.Text())
    ensures Attrs(items + [item]) == Attrs(items) + [item.Attr()]
  {
    hide Item.Text;
    if items == [] {
      assert items + [item] == [item] && [item][1..] == [];
    } else {
      assert (items + [item])[1..] == items[1..] + [item];
      ItemsAppend(items[1..], item);
    }
  }

  /** What the Digest branch prints. */
  datatype Digest = Digest(scheme: string, username: string, realm: string, nonce: string, uri: string,
                           hasQop: bool, cnonce: string, response: string, opaqueText: Option<string>)

  /** The pairs that the header is meant to carry, in the order of printing. */
  function DigestPairs(d: Digest): seq<Attribute> {
    [Attribute(d.scheme, ""), Attribute("username", d.username), Attribute("realm", d.realm),
     Attribute("nonce", d.nonce), Attribute("uri", d.uri)]
    + (if d.hasQop then [Attribute("qop", "auth"), Attribute("nc", "00000001"), Attribute("cnonce", d.cnonce)]
       else [])
    + [Attribute("response", d.response)]
    + (if d.opaqueText.Some? then [Attribute("opaque", d.opaqueText.value)] else [])
  }

  /** The header, character by character. */
  function DigestText(d: Digest): string {
    var known := d.scheme + " username=" + Quote(d.username) + ", realm=" + Quote(d.realm)
                 + ", nonce=" + Quote(d.nonce) + ", uri=" + Quote(d.uri);
    var counted := if d.hasQop then known + ", qop=auth" + ", nc=00000001" + ", cnonce=" + Quote(d.cnonce) else known;
    var answered := counted + ", response=" + ("\"" + d.response + "\"");
    if d.opaqueText.Some? then answered + ", opaque=" + Quote(d.opaqueText.value) else answered
  }

  /** `ss` is a header whose insertions so far carry `pairs`. */
  ghost predicate Prints(ss: string, scheme: string, pairs: seq<Attribute>) {
    exists items: seq<Item> :: PrintsItems(ss, scheme, pairs, items)
  }

  ghost predicate PrintsItems(ss: string, scheme: string, pairs: seq<Attribute>, items: seq<Item>) {
    items != [] && ss == HeaderText(scheme, items) && pairs == [Attribute(scheme, "")] + Attrs(items)
    && forall i | i in items :: PlainItem(i)
  }

  lemma {:induction false} FirstPrints(scheme: string, item: Item)
    requires PlainItem(item)
    ensures Prints(scheme + " " + item.Text(), scheme, [Attribute(scheme, ""), item.Attr()])
  {
    assert [item][1..] == [];
    assert PrintsItems(scheme + " " + item.Text(), scheme, [Attribute(scheme, ""), item.Attr()], [item]);
  }

  lemma {:induction false} NextPrints(ss: string, scheme: string, pairs: seq<Attribute>, item: Item)
    requires Prints(ss, scheme, pairs) && PlainItem(item)
    ensures Prints(ss + (", " + item.Text()), scheme, pairs + [item.Attr()])
  {
    hide PlainItem, HeaderText, Item.Text;
    var items: seq<Item> :| PrintsItems(ss, scheme, pairs, items);
    Inserted(scheme, items, item);
    assert PrintsItems(ss + (", " + item.Text()), scheme, pairs + [item.Attr()], items + [item]);
  }

  lemma {:induction false} PrintsReadsBack(ss: string, scheme: string, pairs: seq<Attribute>)
    requires Prints(ss, scheme, pairs) && PlainName(scheme)
    ensures Parse(ss) == pairs
  {
    hide Parse, PlainName, PlainItem, HeaderText;
    var items: seq<Item> :| PrintsItems(ss, scheme, pairs, items);
    HeaderReadsBack(scheme, items);
  }

  method Insert(ss: string, name: string, text: string, ghost scheme: string, ghost pairs: seq<Attribute>,
                ghost item: Item)
    returns (r: string)
    requires Prints(ss, scheme, pairs) && PlainItem(item) && name == item.name
    requires text == if item.Quoted? then Quote(item.value) else item.value
    ensures Prints(r, scheme, pairs + [Attribute(name, item.value)]) && r == ss + (", " + name + "=") + text
  {
    hide Prints, PlainItem, Quote;
    r := ss + ", " + name + "=" + text;
    NextPrints(ss, scheme, pairs, item);
    assert r == ss + (", " + (name + "=" + text)) == ss + (", " + name + "=") + text;
  }

  method InsertQuoted(ss: string, name: string, value: string, ghost scheme: string, ghost pairs: seq<Attribute>)
    returns (r: string)
    requires Prints(ss, scheme, pairs) && PlainName(name)
    ensures Prints(r, scheme, pairs + [Attribute(name, value)]) && r == ss + (", " + name + "=") + Quote(value)
  {
    hide Prints, PlainName, Quote;
    var text := QuoteText(value);
    r := Insert(ss, name, text, scheme, pairs, Quoted(name, value));
  }

  /** The names with what stands around them. */
  lemma {:induction false} NamesAsPrinted()
    ensures ", " + "realm" + "=" == ", realm=" && ", " + "nonce" + "=" == ", nonce=" && ", " + "uri" + "=" == ", uri="
    ensures ", " + "qop" + "=" + "auth" == ", qop=auth" && ", " + "nc" + "=" + "00000001" == ", nc=00000001"
    ensures ", " + "cnonce" + "=" == ", cnonce=" && ", " + "response" + "=" == ", response="
    ensures ", " + "opaque" + "=" == ", opaque="
  {
  }

  lemma {:induction false} DigestTextIs(d: Digest)
    ensures var known := d.scheme + " " + "username" + "=" + Quote(d.username) + ", realm=" + Quote(d.realm)
                         + ", nonce=" + Quote(d.nonce) + ", uri=" + Quote(d.uri);
            var counted := if d.hasQop then known + ", qop=auth" + ", nc=00000001" + ", cnonce=" + Quote(d.cnonce)
                           else known;
            var answered := counted + ", response=" + ("\"" + d.response + "\"");
            DigestText(d) == if d.opaqueText.Some? then answered + ", opaque=" + Quote(d.opaqueText.value) else answered
  {
    hide Quote;
    assert d.scheme + " " + "username" + "=" == d.scheme + " username=";
  }

  lemma {:induction false} Regroup(a: string, b: string, c: string)
    ensures a + b + c == a + (b + c)
  {
  }

  /** The stream of insertions, character by character. Whatever quotes, backslashes and spaces the values hold, the
      parser gets back exactly the scheme and the name and value pairs that were printed. */
  method PrintDigest(d: Digest) returns (ss: string)
    requires IsSum(d.response)
    ensures ss == DigestText(d)
    ensures EqualsNoCase(d.scheme, "digest") ==> Parse(ss) == DigestPairs(d)
  {
    hide *;
    NamesArePlain();
    NamesAsPrinted();
    var text := QuoteText(d.username);
    ss := d.scheme + " " + "username" + "=" + text;
    ghost var pairs := [Attribute(d.scheme, ""), Attribute("username", d.username)];
    UsernamePrints(d);
    ss := InsertQuoted(ss, "realm", d.realm, d.scheme, pairs);
    pairs := pairs + [Attribute("realm", d.realm)];
    ss := InsertQuoted(ss, "nonce", d.nonce, d.scheme, pairs);
    pairs := pairs + [Attribute("nonce", d.nonce)];
    ss := InsertQuoted(ss, "uri", d.uri, d.scheme, pairs);
    pairs := pairs + [Attribute("uri", d.uri)];
    ghost var known := ss;
    if d.hasQop {
      ss := Insert(ss, "qop", "auth", d.scheme, pairs, Bare("qop", "auth"));
      pairs := pairs + [Attribute("qop", "auth")];
      Regroup(known, ", " + "qop" + "=", "auth");
      ss := Insert(ss, "nc", "00000001", d.scheme, pairs, Bare("nc", "00000001"));
      pairs := pairs + [Attribute("nc", "00000001")];
      Regroup(known + ", qop=auth", ", " + "nc" + "=", "00000001");
      ss := InsertQuoted(ss, "cnonce", d.cnonce, d.scheme, pairs);
      pairs := pairs + [Attribute("cnonce", d.cnonce)];
    }
    SumPrints(d.response);
    ss := Insert(ss, "response", "\"" + d.response + "\"", d.scheme, pairs, Quoted("response", d.response));
    pairs := pairs + [Attribute("response", d.response)];
    if d.opaqueText.Some? {
      ss := InsertQuoted(ss, "opaque", d.opaqueText.value, d.scheme, pairs);
      pairs := pairs + [Attribute("opaque", d.opaqueText.value)];
    }
    DigestTextIs(d);
    if EqualsNoCase(d.scheme, "digest") {
      SchemeIsPlain(d.scheme);
      PrintsReadsBack(ss, d.scheme, pairs);
      PairsInOrder(d, pairs);
    }
  }

  lemma {:induction false} PairsInOrder(d: Digest, pairs: seq<Attribute>)
    requires pairs == [Attribute(d.scheme, ""), Attribute("username", d.username)] + [Attribute("realm", d.realm)]
                      + [Attribute("nonce", d.nonce)] + [Attribute("uri", d.uri)]
                      + (if d.hasQop then [Attribute("qop", "auth"), Attribute("nc", "00000001"),
                                           Attribute("cnonce", d.cnonce)] else [])
                      + [Attribute("response", d.response)]
                      + (if d.opaqueText.Some? then [Attribute("opaque", d.opaqueText.value)] else [])
    ensures pairs == DigestPairs(d)
  {
    assert [Attribute(d.scheme, ""), Attribute("username", d.username)] + [Attribute("realm", d.realm)]
           + [Attribute("nonce", d.nonce)] + [Attribute("uri", d.uri)]
           == [Attribute(d.scheme, ""), Attribute("username", d.username), Attribute("realm", d.realm),
               Attribute("nonce", d.nonce), Attribute("uri", d.uri)];
  }

  lemma {:induction false} NamesArePlain()
    ensures PlainName("username") && PlainName("realm") && PlainName("nonce") && PlainName("uri")
    ensures PlainItem(Bare("qop", "auth")) && PlainItem(Bare("nc", "00000001"))
    ensures PlainName("cnonce") && PlainName("response") && PlainName("opaque")
  {
  }

  lemma {:induction false} UsernamePrints(d: Digest)
    ensures Prints(d.scheme + " " + "username" + "=" + Quote(d.username), d.scheme,
                   [Attribute(d.scheme, ""), Attribute("username", d.username)])
  {
    hide Prints, Quote;
    FirstPrints(d.scheme, Quoted("username", d.username));
    assert d.scheme + " " + "username" + "=" + Quote(d.username)
           == d.scheme + " " + ("username" + "=" + Quote(d.username));
  }

  lemma {:induction false} SumPrints(response: string)
    requires IsSum(response)
    ensures "\"" + response + "\"" == Quote(response) && PlainItem(Quoted("response", response))
  {
    NothingToEscape(response);
  }

  // HttpAuthenticate without its Windows schemes

  datatype AuthResult = HarResponse | HarIgnore | HarCredentials

  /** The result, the context afterwards (the scheme under way, if any), and the scheme last named. */
  datatype AuthDecision = AuthDecision(result: AuthResult, context: Option<string>, scheme: string)

  predicate NamesScheme(scheme: string, name: string) {
    EqualsNoCase(CStr(scheme), name)
  }

  function SchemeOf(challenge: string, before: string): string {
    var args := Parse(challenge);
    if args == [] then before else args[0].name
  }

  function Decide(challenge: string, context: Option<string>, before: string, username: string): AuthDecision {
    var scheme := SchemeOf(challenge, before);
    if context.Some? && context.value != scheme then AuthDecision(HarIgnore, context, scheme)
    else if NamesScheme(scheme, "basic") || NamesScheme(scheme, "digest") then
      if context.Some? || username == "" then AuthDecision(HarCredentials, context, scheme)
      else AuthDecision(HarResponse, Some(scheme), scheme)
    else AuthDecision(HarIgnore, context, scheme)
  }

  /** The scheme that a challenge names: that of its first attribute. */
  function Named(challenge: string, before: string): string {
    if Parse(challenge) == [] then before else Parse(challenge)[0].name
  }

  /** Basic or Digest in whatever case. */
  predicate Known(scheme: string) {
    Spelled(scheme, "basic", "BASIC") || Spelled(scheme, "digest", "DIGEST")
  }

  /** When a challenge is answered, when it asks for credentials that are missing or were refused, and when it is
      ignored. */
  lemma {:induction false} DecideMeans(challenge: string, context: Option<string>, before: string, username: string)
    requires '\0' !in Named(challenge, before)
    ensures var scheme, d := Named(challenge, before), Decide(challenge, context, before, username);
            && d.scheme == scheme
            && (d.result == HarResponse <==> Known(scheme) && context.None? && username != "")
            && (d.result == HarCredentials <==>
                  Known(scheme) && if context.Some? then context.value == scheme else username == "")
            && d.context == if d.result == HarResponse then Some(scheme) else context
  {
    hide Parse, EqualsNoCase, Spelled;
    var scheme := Named(challenge, before);
    assert scheme == SchemeOf(challenge, before);
    EqualsNoCaseIff(scheme, "basic", "basic", "BASIC");
    EqualsNoCaseIff(scheme, "digest", "digest", "DIGEST");
  }

  /** The bytes of a text. */
  function Octets(s: string): (r: seq<Base64.Byte>)
    ensures |r| == |s|
  {
    seq(|s|, i requires 0 <= i < |s| => s[i] as int % 256)
  }

  lemma {:induction false} DigestIsNotBasic(scheme: string)
    requires EqualsNoCase(scheme, "digest")
    ensures !NamesScheme(scheme, "basic")
  {
    forall i | 0 <= i < |scheme| ensures scheme[i] != '\0' {
      assert Lower(scheme[i]) == "digest"[i];
    }
  }

  lemma {:induction false} LookupAt(p: seq<Attribute>, k: nat, name: string)
    requires k <= |p| && (forall i | 0 <= i < k :: p[i].name != name) && (k < |p| ==> p[k].name == name)
    ensures Lookup(p, name) == if k < |p| then Some(p[k].value) else None
  {
    if 0 < k {
      LookupAt(p[1..], k - 1, name);
    }
  }

  /** No two names in an answer are the same. */
  lemma {:induction false} DigestNames(d: Digest)
    requires EqualsNoCase(d.scheme, "digest")
    ensures var p := DigestPairs(d);
            |p| == 6 + (if d.hasQop then 3 else 0) + (if d.opaqueText.Some? then 1 else 0)
            && (forall i, j | 0 <= i < j < |p| :: p[i].name != p[j].name)
            && (d.hasQop ==> p[5] == Attribute("qop", "auth") && p[7] == Attribute("cnonce", d.cnonce)
                             && p[8] == Attribute("response", d.response))
            && (d.hasQop || forall i | 0 <= i < |p| :: p[i].name != "qop" && p[i].name != "cnonce")
            && (d.opaqueText.Some? || forall i | 0 <= i < |p| :: p[i].name != "opaque")
  {
    SchemeNamesNothing(d.scheme);
  }

  lemma {:induction false} SchemeNamesNothing(scheme: string)
    requires EqualsNoCase(scheme, "digest")
    ensures scheme != "opaque" && scheme != "cnonce" && |scheme| == 6
  {
    assert Lower(scheme[0]) == 'd';
  }

  /** What a reader finds under the names of a printed answer. */
  lemma {:induction false} PairsEcho(d: Digest)
    requires EqualsNoCase(d.scheme, "digest")
    ensures var p := DigestPairs(d);
            p != [] && p[0] == Attribute(d.scheme, "")
            && Lookup(p, "username") == Some(d.username) && Lookup(p, "realm") == Some(d.realm)
            && Lookup(p, "nonce") == Some(d.nonce) && Lookup(p, "uri") == Some(d.uri)
            && Lookup(p, "qop") == (if d.hasQop then Some("auth") else None)
            && Lookup(p, "cnonce") == (if d.hasQop then Some(d.cnonce) else None)
            && Lookup(p, "response") == Some(d.response) && Lookup(p, "opaque") == d.opaqueText
  {
    hide Lookup;
    var p := DigestPairs(d);
    DigestNames(d);
    LookupAt(p, 1, "username");
    LookupAt(p, 2, "realm");
    LookupAt(p, 3, "nonce");
    LookupAt(p, 4, "uri");
    LookupAt(p, if d.opaqueText.Some? then |p| - 1 else |p|, "opaque");
    if d.hasQop {
      QopEchoes(d);
    } else {
      LookupAt(p, |p|, "qop");
      LookupAt(p, |p|, "cnonce");
      LookupAt(p, 5, "response");
    }
  }

  lemma {:induction false} QopEchoes(d: Digest)
    requires EqualsNoCase(d.scheme, "digest") && d.hasQop
    ensures var p := DigestPairs(d);
            Lookup(p, "qop") == Some("auth") && Lookup(p, "cnonce") == Some(d.cnonce)
            && Lookup(p, "response") == Some(d.response)
  {
    hide Lookup, DigestPairs;
    var p := DigestPairs(d);
    DigestNames(d);
    LookupAt(p, 5, "qop");
    LookupAt(p, 7, "cnonce");
    LookupAt(p, 8, "response");
  }

  method HttpHasAttribute(attributes: seq<Attribute>, name: string) returns (value: Option<string>)
    ensures value == Lookup(attributes, name)
  {
    value := None;
    assert attributes[0..] == attributes;
    for i := 0 to |attributes|
      invariant Lookup(attributes, name) == Lookup(attributes[i..], name)
    {
      assert attributes[i..][1..] == attributes[i + 1..];
      if attributes[i].name == name {
        return Some(attributes[i].value);
      }
    }
  }

  /** MD5 with its result in hexadecimal digits; which function it is does not matter. */
  type Md5 = f: string -> string | forall t :: IsSum(f(t)) witness (_: string) => ""

  /** The request digest of section 3.2.2.1 of RFC 2617, with "auth" for the quality of protection if it is asked for.
      The texts that the source builds in buffers end at a NUL. */
  function RequestDigest(md5: Md5, verb: string, uri: string, username: string, password: string, realm: string,
                         nonce: string, cnonce: Option<string>): string {
    md5(md5(CStr(username + ":" + CStr(realm) + ":" + password)) + ":"
        + (if cnonce.Some? then nonce + ":" + "00000001" + ":" + cnonce.value + ":" + "auth" else nonce) + ":"
        + md5(verb + ":" + uri))
  }

  lemma {:induction false} DigestIsSum(md5: Md5, verb: string, uri: string, username: string, password: string,
                                       realm: string, nonce: string, cnonce: Option<string>)
    ensures IsSum(RequestDigest(md5, verb, uri, username, password, realm, nonce, cnonce))
  {
  }

  /** A Basic answer is the scheme and the Base64 text of the credentials. A Digest answer, read back, echoes what the
      challenge said, and carries the request digest. */
  method HttpAuthenticate(challenge: string, verb: string, uri: string, username: string, password: string,
                          context: Option<string>, before: string, md5: Md5, clock: string)
    returns (d: AuthDecision, response: string)
    ensures d == Decide(challenge, context, before, username)
    ensures d.result.HarResponse? && NamesScheme(d.scheme, "basic") ==>
              |response| > |d.scheme| && response[..|d.scheme| + 1] == d.scheme + " "
              && Base64.Decode(Base64.DO_STRICT, response[|d.scheme| + 1..]).success
              && Base64.Decode(Base64.DO_STRICT, response[|d.scheme| + 1..]).result
                 == Octets(CStr(username + ":" + password))
    ensures d.result.HarResponse? && EqualsNoCase(d.scheme, "digest") ==>
              var args, answer := Parse(challenge), Parse(response);
              answer != [] && answer[0] == Attribute(d.scheme, "")
              && Lookup(answer, "username") == Some(username)
              && Lookup(answer, "uri") == Some(uri)
              && Lookup(answer, "realm") == Some(Lookup(args, "realm").GetOr(""))
              && Lookup(answer, "nonce") == Some(Lookup(args, "nonce").GetOr(""))
              && Lookup(answer, "opaque") == Lookup(args, "opaque")
              && Lookup(answer, "cnonce") == (if Lookup(args, "qop").Some? then Some(md5(clock)) else None)
              && Lookup(answer, "qop") == (if Lookup(args, "qop").Some? then Some("auth") else None)
              && Lookup(answer, "response") ==
                   Some(RequestDigest(md5, verb, uri, username, password, Lookup(args, "realm").GetOr(""),
                                      Lookup(args, "nonce").GetOr(""), Lookup(answer, "cnonce")))
  {
    hide Parse, IsSum, Base64.Decode, Lookup, DigestPairs, CStr, Lower, DigestText, RequestDigest;
    var scheme := before;
    response := "";
    var args := HttpParseAttributes(challenge);
    if args != [] {
      scheme := args[0].name;
    }
    if context.Some? && context.value != scheme {
      d := AuthDecision(HarIgnore, context, scheme);
    } else if NamesScheme(scheme, "basic") {
      if context.Some? || username == "" {
        d := AuthDecision(HarCredentials, context, scheme);
      } else {
        if EqualsNoCase(scheme, "digest") {
          DigestIsNotBasic(scheme);
        }
        d := AuthDecision(HarResponse, Some(scheme), scheme);
        var text := Base64.Encode(Octets(CStr(username + ":" + password)));
        response := scheme + " " + text;
        Base64.EncodedDecodes(Base64.DO_STRICT, Octets(CStr(username + ":" + password)));
        assert response[|scheme| + 1..] == text;
      }
    } else if NamesScheme(scheme, "digest") {
      if context.Some? || username == "" {
        d := AuthDecision(HarCredentials, context, scheme);
      } else {
        d := AuthDecision(HarResponse, Some(scheme), scheme);
        var realm := HttpHasAttribute(args, "realm");
        var nonce := HttpHasAttribute(args, "nonce");
        var qop := HttpHasAttribute(args, "qop");
        var opaqueText := HttpHasAttribute(args, "opaque");
        var cnonce := md5(clock);
        var sum := RequestDigest(md5, verb, uri, username, password, realm.GetOr(""), nonce.GetOr(""),
                                 if qop.Some? then Some(cnonce) else None);
        DigestIsSum(md5, verb, uri, username, password, realm.GetOr(""), nonce.GetOr(""),
                    if qop.Some? then Some(cnonce) else None);
        var digest := Digest(scheme, username, realm.GetOr(""), nonce.GetOr(""), uri, qop.Some?, cnonce, sum,
                             opaqueText);
        response := PrintDigest(digest);
        if EqualsNoCase(scheme, "digest") {
          PairsEcho(digest);
        }
      }
    } else {
      d := AuthDecision(HarIgnore, context, scheme);
    }
  }
}
