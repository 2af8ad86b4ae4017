/** The cookie layer of the service: `parseCookies`, which reads a `Cookie` request
    header leniently (after the cookie-string grammar of section 4.2.1 of RFC 6265),
    and `buildCookie`, which writes the `Set-Cookie` line for the session (attribute
    syntax of section 4.1.1 of RFC 6265, plus `SameSite`). */
module Cookies {
  import opened Wrappers
  import opened JsText
  import UriCodec

  /** The name of the cookie that carries the session credential. */
  const SessionCookie: string := "session"

  // ---- parseCookies -----------------------------------------------------------------

  /** Every piece trimmed, as `.map((c) => c.trim())` does. */
  function TrimAll(parts: seq<string>): (r: seq<string>)
    ensures |r| == |parts|
  {
    MapAll(Trim, parts)
  }

  /** `parts.map(f)`. */
  function MapAll(f: string -> string, parts: seq<string>): (r: seq<string>)
    ensures |r| == |parts|
  {
    seq(|parts|, i requires 0 <= i < |parts| => f(parts[i]))
  }

  /** The non-empty pieces, in order, as `.filter(Boolean)` keeps them. */
  function DropEmpty(parts: seq<string>): (r: seq<string>)
    ensures forall i :: 0 <= i < |r| ==> r[i] != ""
    ensures |r| <= |parts|
  {
    if parts == [] then []
    else (if parts[0] == "" then [] else [parts[0]]) + DropEmpty(parts[1..])
  }

  /** The segments of a header that become entries. */
  function Segments(header: string): seq<string> {
    DropEmpty(TrimAll(Split(header, ';')))
  }

  /** One segment as a name/value pair: it is cut at its first `=` and both halves
      are percent-decoded; a segment without `=` is a name, left undecoded, with an
      empty value. `None` stands for the URIError a malformed escape throws. */
  function Entry(segment: string): Option<(string, string)> {
    match IndexOf(segment, '=')
    case None => Some((segment, ""))
    case Some(i) =>
      match (UriCodec.Decode(segment[..i]), UriCodec.Decode(segment[i + 1..]))
      case (Some(name), Some(value)) => Some((name, value))
      case _ => None
  }

  /** Every segment as an entry; one failure fails them all. */
  function Entries(segments: seq<string>): (r: Option<seq<(string, string)>>)
    ensures r.Some? ==> |r.value| == |segments|
  {
    if segments == [] then Some([])
    else match (Entry(segments[0]), Entries(segments[1..]))
      case (Some(e), Some(es)) => Some([e] + es)
      case _ => None
  }

  /** `Object.fromEntries`: pairs are stored in order, so a later pair overwrites an
      earlier one with the same name. */
  function FromEntries(entries: seq<(string, string)>): map<string, string> {
    if entries == [] then map[]
    else
      var last := entries[|entries| - 1];
      FromEntries(entries[..|entries| - 1])[last.0 := last.1]
  }

  /** `parseCookies(header)`; `None` when decoding throws. */
  function ParseCookies(header: string): Option<map<string, string>> {
    match Entries(Segments(header))
    case None => None
    case Some(es) => Some(FromEntries(es))
  }

  /** The cookies of two header parts together; those of the second part win. */
  function Merge(first: Option<map<string, string>>, second: Option<map<string, string>>): Option<map<string, string>> {
    if first.Some? && second.Some? then Some(first.value + second.value) else None
  }

  // ---- buildCookie ------------------------------------------------------------------

  /** The deployment's cookie settings: whether `Secure` is written and the `SameSite`
      policy. */
  datatype CookieConfig = CookieConfig(secure: bool, sameSite: string)

  /** The `Set-Cookie` line for a cookie, written out flat: the encoded pair, `Path=/`,
      `HttpOnly`, the `SameSite` policy, then `Secure` when configured and `Max-Age`
      when a number of seconds is given. */
  function SetCookieLine(name: string, value: string, maxAge: Option<int>, cfg: CookieConfig): string {
    name + "=" + UriCodec.Encode(value) + "; " + "Path=/" + "; " + "HttpOnly" + "; " + "SameSite=" + cfg.sameSite
    + (if cfg.secure then "; " + "Secure" else "")
    + (if maxAge.Some? then "; " + "Max-Age=" + IntToDecimal(maxAge.value) else "")
  }

  /** `buildCookie`: collects the attributes in a list, appending the optional ones,
      and joins them with `"; "`. The value is a string, so `value || ''` is the value
      itself. */
  method BuildCookie(name: string, value: string, maxAge: Option<int>, cfg: CookieConfig)
    returns (cookie: string)
    ensures cookie == SetCookieLine(name, value, maxAge, cfg)
  {
    var pair := name + "=" + UriCodec.Encode(value);
    var parts := [pair, "Path=/", "HttpOnly", "SameSite=" + cfg.sameSite];
    ghost var line := pair + "; " + "Path=/" + "; " + "HttpOnly" + "; " + "SameSite=" + cfg.sameSite;
    JoinOfFixedParts(pair, cfg.sameSite);
    ghost var secure := if cfg.secure then "; " + "Secure" else "";
    if cfg.secure {
      AppendFlag(parts, line, "Secure");
      parts := parts + ["Secure"];
    }
    assert |parts| >= 1 && Join(parts, "; ") == line + secure;
    ghost var age := if maxAge.Some? then "; " + "Max-Age=" + IntToDecimal(maxAge.value) else "";
    if maxAge.Some? {
      AppendSetting(parts, line + secure, "Max-Age=", IntToDecimal(maxAge.value));
      parts := parts + ["Max-Age=" + IntToDecimal(maxAge.value)];
    }
    assert Join(parts, "; ") == line + secure + age;
    cookie := Join(parts, "; ");
  }

  /** Appending a flag attribute to the list appends it, after a separator, to the line. */
  lemma AppendFlag(parts: seq<string>, line: string, flag: string)
    requires |parts| >= 1 && Join(parts, "; ") == line
    ensures Join(parts + [flag], "; ") == line + ("; " + flag)
  {
    JoinSnoc(parts, "; ", flag);
  }

  /** The same for a `key=value` attribute. */
  lemma AppendSetting(parts: seq<string>, line: string, key: string, v: string)
    requires |parts| >= 1 && Join(parts, "; ") == line
    ensures Join(parts + [key + v], "; ") == line + ("; " + key + v)
  {
    JoinSnoc(parts, "; ", key + v);
  }

  /** The four attributes every cookie line has, joined. */
  lemma JoinOfFixedParts(pair: string, policy: string)
    ensures Join([pair, "Path=/", "HttpOnly", "SameSite=" + policy], "; ")
      == pair + "; " + "Path=/" + "; " + "HttpOnly" + "; " + "SameSite=" + policy
  {
    var last := "SameSite=" + policy;
    JoinOfFour(pair, "Path=/", "HttpOnly", last, "; ");
  }

  lemma JoinOfFour(a: string, b: string, c: string, d: string, sep: string)
    ensures Join([a, b, c, d], sep) == a + sep + b + sep + c + sep + d
  {
    assert [a, b, c, d][1..] == [b, c, d];
    assert [b, c, d][1..] == [c, d];
    assert [c, d][1..] == [d];
    assert Join([c, d], sep) == c + sep + d;
    assert Join([b, c, d], sep) == b + sep + (c + sep + d);
    assert Join([a, b, c, d], sep) == a + sep + (b + sep + (c + sep + d));
  }

  // ---- Properties of parseCookies ---------------------------------------------------

  lemma TrimAllConcat(a: seq<string>, b: seq<string>)
    ensures TrimAll(a + b) == TrimAll(a) + TrimAll(b)
  {
    MapAllConcat(Trim, a, b);
  }

  lemma MapAllConcat(f: string -> string, a: seq<string>, b: seq<string>)
    ensures MapAll(f, a + b) == MapAll(f, a) + MapAll(f, b)
  {
    var l, r := MapAll(f, a + b), MapAll(f, a) + MapAll(f, b);
    forall i | 0 <= i < |l|
      ensures l[i] == r[i]
    {
      if i < |a| {
        assert (a + b)[i] == a[i];
      } else {
        assert (a + b)[i] == b[i - |a|];
      }
    }
  }

  lemma {:induction false} DropEmptyConcat(a: seq<string>, b: seq<string>)
    ensures DropEmpty(a + b) == DropEmpty(a) + DropEmpty(b)
  {
    if a == [] {
      assert a + b == b;
    } else {
      assert (a + b)[1..] == a[1..] + b;
      DropEmptyConcat(a[1..], b);
    }
  }

  lemma {:induction false} EntriesConcat(a: seq<string>, b: seq<string>)
    ensures Entries(a + b).Some? <==> Entries(a).Some? && Entries(b).Some?
    ensures Entries(a + b).Some? ==> Entries(a + b).value == Entries(a).value + Entries(b).value
  {
    if a == [] {
      assert a + b == b;
      if Entries(b).Some? {
        assert [] + Entries(b).value == Entries(b).value;
      }
    } else {
      assert (a + b)[1..] == a[1..] + b;
      EntriesConcat(a[1..], b);
      if Entries(a).Some? && Entries(b).Some? {
        var e := Entry(a[0]).value;
        assert [e] + (Entries(a[1..]).value + Entries(b).value) == Entries(a).value + Entries(b).value;
      }
    }
  }

  /** The pairs of a concatenation are stored as those of the first part overwritten
      by those of the second. */
  lemma {:induction false} FromEntriesConcat(a: seq<(string, string)>, b: seq<(string, string)>)
    ensures FromEntries(a + b) == FromEntries(a) + FromEntries(b)
    decreases |b|
  {
    if b == [] {
      assert a + b == a;
    } else {
      var b' := b[..|b| - 1];
      var last := b[|b| - 1];
      assert (a + b)[..|a + b| - 1] == a + b';
      assert (a + b)[|a + b| - 1] == last;
      FromEntriesConcat(a, b');
      UpdateAfterUnion(FromEntries(a), FromEntries(b'), last.0, last.1);
    }
  }

  lemma UpdateAfterUnion(m1: map<string, string>, m2: map<string, string>, k: string, v: string)
    ensures (m1 + m2)[k := v] == m1 + m2[k := v]
  {
  }

  /** The segments of two header parts joined by `;` are those of each part. */
  lemma SegmentsAround(a: string, b: string)
    ensures Segments(a + ";" + b) == Segments(a) + Segments(b)
  {
    assert a + ";" + b == a + [';'] + b;
    SplitAround(a, ';', b);
    TrimAllConcat(Split(a, ';'), Split(b, ';'));
    DropEmptyConcat(TrimAll(Split(a, ';')), TrimAll(Split(b, ';')));
  }

  /** Parsing two header parts joined by `;` parses each part; the cookies of the second
      part override same-named ones of the first, and a failure in either part fails
      the whole header. */
  lemma ParseAround(a: string, b: string)
    ensures ParseCookies(a + ";" + b) == Merge(ParseCookies(a), ParseCookies(b))
  {
    var sa, sb := Segments(a), Segments(b);
    SegmentsAround(a, b);
    EntriesConcat(sa, sb);
    if Entries(sa).Some? && Entries(sb).Some? {
      FromEntriesConcat(Entries(sa).value, Entries(sb).value);
    }
  }

  /** A header part without `;` is one segment: nothing when it trims to empty, else
      the entry of its trimmed text. */
  lemma ParsePiece(s: string)
    requires ';' !in s
    ensures ParseCookies(s) == if Trim(s) == "" then Some(map[]) else
      match Entry(Trim(s))
      case None => None
      case Some(e) => Some(map[e.0 := e.1])
  {
    var t := Trim(s);
    SegmentsOfPiece(s);
    if t != "" {
      EntriesOfOne(t);
    }
  }

  lemma SegmentsOfPiece(s: string)
    requires ';' !in s
    ensures Segments(s) == if Trim(s) == "" then [] else [Trim(s)]
  {
    SplitOfPiece(s, ';');
    var t := Trim(s);
    assert TrimAll([s]) == [t];
    assert DropEmpty([t]) == (if t == "" then [] else [t]) + DropEmpty([]);
  }

  lemma EntriesOfOne(t: string)
    ensures Entries([t]) == match Entry(t) case None => None case Some(e) => Some([e])
    ensures Entry(t).Some? ==> FromEntries([Entry(t).value]) == map[Entry(t).value.0 := Entry(t).value.1]
  {
    assert [t][1..] == [];
    if Entry(t).Some? {
      var e := Entry(t).value;
      assert [e][..0] == [];
      assert [e] + [] == [e];
    }
  }

  /** A segment is cut at its FIRST `=` only: everything after it, further `=` included,
      is the value. */
  lemma EntryAtFirstEquals(name: string, value: string)
    requires '=' !in name
    ensures Entry(name + "=" + value) == match (UriCodec.Decode(name), UriCodec.Decode(value))
      case (Some(n), Some(v)) => Some((n, v))
      case _ => None
  {
    var s := name + "=" + value;
    assert s[..|name|] == name;
    IndexOfFirst(s, '=', |name|);
    assert s[|name| + 1..] == value;
  }

  /** A segment without `=` is a name with the empty value, and that name is NOT
      percent-decoded. */
  lemma EntryWithoutEquals(s: string)
    requires '=' !in s
    ensures Entry(s) == Some((s, ""))
  {
  }

  /** Text made only of white space trims to nothing and holds no separator. */
  lemma BlankTrimsAway(w: string)
    requires AllTrimmable(w)
    ensures Trim(w) == "" && ';' !in w
  {
    BlankTrims(w);
    assert !IsTrimmable(';');
  }

  /** `name=value`, after optional white space, is one cookie: the name as written and
      the value with trailing white space dropped, decoded. */
  lemma ParsePair(w: string, name: string, value: string)
    requires AllTrimmable(w)
    requires name != [] && !IsTrimmable(name[0])
    requires ';' !in name && '=' !in name && '%' !in name
    requires ';' !in value
    ensures ParseCookies(w + name + "=" + value) ==
      match UriCodec.Decode(TrimEnd(value))
      case None => None
      case Some(v) => Some(map[name := v])
  {
    BlankTrimsAway(w);
    TrimOfPair(w, name, value);
    NoSemicolonInPair(w, name, value);
    ParsePiece(w + name + "=" + value);
    EntryAtFirstEquals(name, TrimEnd(value));
    UriCodec.DecodePlain(name);
  }

  lemma TrimOfPair(w: string, name: string, value: string)
    requires AllTrimmable(w)
    requires name != [] && !IsTrimmable(name[0])
    ensures Trim(w + name + "=" + value) == name + "=" + TrimEnd(value)
  {
    var word := name + "=";
    assert w + name + "=" + value == w + word + value;
    assert word[0] == name[0] && word[|word| - 1] == '=';
    TrimWordAndTail(w, word, value);
  }

  lemma NoSemicolonInPair(w: string, name: string, value: string)
    requires ';' !in w && ';' !in name && ';' !in value
    ensures ';' !in w + name + "=" + value
  {
  }

  /** `name=value` with nothing around it: the name as written and the value with
      trailing white space dropped, decoded. */
  lemma ParseBarePair(name: string, value: string)
    requires PlainName(name) && ';' !in value
    ensures ParseCookies(name + "=" + value) ==
      match UriCodec.Decode(TrimEnd(value))
      case None => None
      case Some(v) => Some(map[name := v])
  {
    ParsePair("", name, value);
    NoLeadingSpace(name, value);
  }

  lemma NoLeadingSpace(name: string, value: string)
    ensures "" + name + "=" + value == name + "=" + value
  {
  }

  /** `name=value` whose value has no white space, `%` or `;` is the cookie holding that
      value unchanged. */
  lemma ParseSolidPair(name: string, value: string)
    requires PlainName(name)
    requires NoTrimmable(value) && ';' !in value && '%' !in value
    ensures ParseCookies(name + "=" + value) == Some(map[name := value])
  {
    TrimEndOfSolid(value);
    UriCodec.DecodePlain(value);
    ParseBarePair(name, value);
  }

  /** A bare word, after optional white space, is a cookie with the empty value. */
  lemma ParseFlag(w: string, name: string)
    requires AllTrimmable(w)
    requires name != [] && !IsTrimmable(name[0]) && !IsTrimmable(name[|name| - 1])
    requires ';' !in name && '=' !in name
    ensures ParseCookies(w + name) == Some(map[name := ""])
  {
    BlankTrimsAway(w);
    assert w + name == w + name + "";
    TrimWordAndTail(w, name, "");
    assert Trim(w + name) == name;
    assert ';' !in w + name;
    ParsePiece(w + name);
  }

  /** Merging in a part without cookies changes nothing. */
  lemma MergeWithNone(x: Option<map<string, string>>, y: Option<map<string, string>>)
    ensures Merge(x, Some(map[])) == x && Merge(Some(map[]), y) == y
  {
    if x.Some? {
      MapUnit(x.value);
    }
    if y.Some? {
      MapUnit(y.value);
    }
  }

  lemma MapUnit(m: map<string, string>)
    ensures map[] + m == m && m + map[] == m
  {
  }

  /** The empty header has no cookies. */
  lemma EmptyHeader()
    ensures ParseCookies("") == Some(map[])
  {
    ParsePiece("");
  }

  /** Empty and blank segments (`;;`, `; ;`) yield no entry. */
  lemma BlankSegmentIgnored(a: string, w: string, b: string)
    requires AllTrimmable(w)
    ensures ParseCookies(a + ";" + w + ";" + b) == ParseCookies(a + ";" + b)
  {
    BlankParsesEmpty(w);
    ParseAround(w, b);
    MergeWithNone(ParseCookies(a), ParseCookies(b));
    assert ParseCookies(w + ";" + b) == ParseCookies(b);
    ParseAround(a, w + ";" + b);
    ParseAround(a, b);
    JoinedRegrouped(a, w, b);
  }

  lemma JoinedRegrouped(a: string, w: string, b: string)
    ensures a + ";" + (w + ";" + b) == a + ";" + w + ";" + b
  {
  }

  /** A part made only of white space has no cookies. */
  lemma BlankParsesEmpty(w: string)
    requires AllTrimmable(w)
    ensures ParseCookies(w) == Some(map[])
  {
    BlankTrimsAway(w);
    ParsePiece(w);
  }

  /** A trailing `;` yields no entry. */
  lemma TrailingSeparatorIgnored(a: string)
    ensures ParseCookies(a + ";") == ParseCookies(a)
  {
    EmptyTail(a);
    ParseAround(a, "");
    EmptyHeader();
    MergeWithNone(ParseCookies(a), ParseCookies(a));
  }

  lemma EmptyTail(a: string)
    ensures a + ";" + "" == a + ";"
  {
  }

  /** When a name repeats, the last occurrence wins. */
  lemma LaterCookieWins(a: string, b: string, name: string)
    requires ParseCookies(a).Some? && ParseCookies(b).Some?
    requires name in ParseCookies(b).value
    ensures ParseCookies(a + ";" + b).Some?
    ensures name in ParseCookies(a + ";" + b).value
    ensures ParseCookies(a + ";" + b).value[name] == ParseCookies(b).value[name]
  {
    ParseAround(a, b);
  }

  /** A malformed escape in any segment fails the whole header, whatever the other
      segments hold. */
  lemma MalformedSegmentFailsHeader(a: string, b: string)
    requires ParseCookies(a).None? || ParseCookies(b).None?
    ensures ParseCookies(a + ";" + b).None?
  {
    ParseAround(a, b);
  }

  /** Two cookies of the same name with plain values: the second one is kept. */
  lemma RepeatedSolidPair(name: string, x: string, y: string)
    requires name != [] && !IsTrimmable(name[0])
    requires ';' !in name && '=' !in name && '%' !in name
    requires NoTrimmable(x) && ';' !in x && '%' !in x
    requires NoTrimmable(y) && ';' !in y && '%' !in y
    ensures ParseCookies((name + "=" + x) + ";" + (name + "=" + y)) == Some(map[name := y])
  {
    ParseSolidPair(name, x);
    ParseSolidPair(name, y);
    ParseAround(name + "=" + x, name + "=" + y);
    OverrideSame(name, x, y);
  }

  lemma OverrideSame(k: string, x: string, y: string)
    ensures map[k := x] + map[k := y] == map[k := y]
  {
  }

  // ---- The Set-Cookie line read back ---------------------------------------------------

  /** A cookie name that `parseCookies` reads back as written: it does not start with
      white space and holds no `;`, `=` or `%`. */
  predicate PlainName(name: string) {
    name != [] && !IsTrimmable(name[0]) && ';' !in name && '=' !in name && '%' !in name
  }

  /** `session` is such a name. */
  lemma SessionNameIsPlain()
    ensures PlainName(SessionCookie)
  {
    assert !IsTrimmable('s');
  }

  /** The pair `buildCookie` writes, echoed back in a `Cookie` header, is read as the
      value that was written, whatever that value holds. */
  lemma EchoedPair(name: string, value: string)
    requires PlainName(name)
    ensures ParseCookies(name + "=" + UriCodec.Encode(value)) == Some(map[name := value])
  {
    var e := UriCodec.Encode(value);
    UriCodec.EncodeAvoidsDelimiters(value);
    TrimEndOfSolid(e);
    UriCodec.DecodeEncode(value);
    ParseBarePair(name, e);
  }

  /** Reading a whole `Set-Cookie` line with `parseCookies` gives the cookie with the
      value that was written, next to the attributes as cookies of their own. A policy
      holding `;` or `%` is excluded: it could add a cookie or fail to decode. */
  lemma SetCookieRoundTrip(name: string, value: string, maxAge: Option<int>, cfg: CookieConfig)
    requires PlainName(name)
    requires ';' !in cfg.sameSite && '%' !in cfg.sameSite
    ensures ParseCookies(SetCookieLine(name, value, maxAge, cfg)) == Some(
      map[name := value, "Path" := "/", "HttpOnly" := "", "SameSite" := TrimEnd(cfg.sameSite)]
      + (if cfg.secure then map["Secure" := ""] else map[])
      + (if maxAge.Some? then map["Max-Age" := IntToDecimal(maxAge.value)] else map[]))
  {
    var head := name + "=" + UriCodec.Encode(value) + "; " + "Path=/" + "; " + "HttpOnly" + "; " + "SameSite=" + cfg.sameSite;
    var m := map[name := value, "Path" := "/", "HttpOnly" := "", "SameSite" := TrimEnd(cfg.sameSite)];
    FixedAttributesParse(name, value, cfg.sameSite);
    SecurePart();
    var withSecure := head + (if cfg.secure then "; " + "Secure" else "");
    var m2 := m + (if cfg.secure then map["Secure" := ""] else map[]);
    if cfg.secure {
      PresentPart(head, m, "; " + "Secure", " " + "Secure", map["Secure" := ""]);
    } else {
      AbsentPart(head, m);
    }
    var n := if maxAge.Some? then maxAge.value else 0;
    MaxAgePart(n);
    if maxAge.Some? {
      PresentPart(withSecure, m2, "; " + "Max-Age=" + IntToDecimal(n), " " + "Max-Age" + "=" + IntToDecimal(n),
        map["Max-Age" := IntToDecimal(n)]);
    } else {
      AbsentPart(withSecure, m2);
    }
  }

  /** An attribute that parses on its own adds its cookie to those of the line before
      it. */
  lemma PresentPart(head: string, m: map<string, string>, part: string, segment: string, m': map<string, string>)
    requires ParseCookies(head) == Some(m)
    requires part == ";" + segment && ParseCookies(segment) == Some(m')
    ensures ParseCookies(head + part) == Some(m + m')
  {
    ConcatAssoc(head, ";", segment);
    ParseAround(head, segment);
  }

  /** An attribute that is not written adds nothing. */
  lemma AbsentPart(head: string, m: map<string, string>)
    requires ParseCookies(head) == Some(m)
    ensures ParseCookies(head + "") == Some(m + map[])
  {
    AppendEmpty(head);
    MapUnit(m);
  }

  lemma AppendEmpty(s: string)
    ensures s + "" == s
  {
  }

  /** The pair and the three attributes every line has. */
  lemma FixedAttributesParse(name: string, value: string, policy: string)
    requires PlainName(name)
    requires ';' !in policy && '%' !in policy
    ensures ParseCookies(name + "=" + UriCodec.Encode(value) + "; " + "Path=/" + "; " + "HttpOnly" + "; " + "SameSite=" + policy)
      == Some(map[name := value, "Path" := "/", "HttpOnly" := "", "SameSite" := TrimEnd(policy)])
  {
    var pair := name + "=" + UriCodec.Encode(value);
    var path, httpOnly, sameSite := " " + "Path" + "=" + "/", " " + "HttpOnly", " " + "SameSite" + "=" + policy;
    AttributeLiterals();
    RegroupAttributes(pair, "; ", ";", " ", "Path=/", "Path", "=", "/", "HttpOnly", "SameSite=", "SameSite", policy);
    EchoedPair(name, value);
    PathPart();
    HttpOnlyPart();
    SameSitePart(policy);
    ParseAround(pair, path);
    ParseAround(pair + ";" + path, httpOnly);
    ParseAround(pair + ";" + path + ";" + httpOnly, sameSite);
    FixedAttributesMap(name, value, TrimEnd(policy));
  }

  /** The attribute literals, cut where the parser cuts them. */
  lemma AttributeLiterals()
    ensures "; " == ";" + " "
    ensures "Path=/" == "Path" + "=" + "/"
    ensures "SameSite=" == "SameSite" + "="
    ensures "Max-Age=" == "Max-Age" + "="
  {
  }

  lemma RegroupAttributes(pair: string, sep: string, semi: string, sp: string, path: string, pk: string,
                          eq: string, pv: string, flag: string, key: string, kk: string, policy: string)
    requires sep == semi + sp && path == pk + eq + pv && key == kk + eq
    ensures pair + sep + path + sep + flag + sep + key + policy
      == pair + semi + (sp + pk + eq + pv) + semi + (sp + flag) + semi + (sp + kk + eq + policy)
  {
  }

  lemma FixedAttributesMap(name: string, value: string, policy: string)
    ensures map[name := value] + map["Path" := "/"] + map["HttpOnly" := ""] + map["SameSite" := policy]
      == map[name := value, "Path" := "/", "HttpOnly" := "", "SameSite" := policy]
  {
  }

  lemma PathPart()
    ensures ParseCookies(" " + "Path" + "=" + "/") == Some(map["Path" := "/"])
  {
    AttributeNames();
    ParsePair(" ", "Path", "/");
    TrimEndOfSolid("/");
    UriCodec.DecodePlain("/");
  }

  lemma HttpOnlyPart()
    ensures ParseCookies(" " + "HttpOnly") == Some(map["HttpOnly" := ""])
  {
    ParseFlag(" ", "HttpOnly");
  }

  lemma SameSitePart(policy: string)
    requires ';' !in policy && '%' !in policy
    ensures ParseCookies(" " + "SameSite" + "=" + policy) == Some(map["SameSite" := TrimEnd(policy)])
  {
    var v := TrimEnd(policy);
    assert '%' !in v by {
      assert forall i :: 0 <= i < |v| ==> v[i] == policy[i];
    }
    UriCodec.DecodePlain(v);
    AttributeNames();
    ParsePair(" ", "SameSite", policy);
  }

  /** The attribute names are plain names, and the separator's space is white space. */
  lemma AttributeNames()
    ensures PlainName("Path") && PlainName("SameSite") && PlainName("Max-Age")
    ensures AllTrimmable(" ")
  {
    assert !IsTrimmable('P') && !IsTrimmable('S') && !IsTrimmable('M');
  }

  lemma SecurePart()
    ensures "; " + "Secure" == ";" + (" " + "Secure")
    ensures ParseCookies(" " + "Secure") == Some(map["Secure" := ""])
  {
    SecureText();
    ParseFlag(" ", "Secure");
  }

  lemma SecureText()
    ensures "; " + "Secure" == ";" + (" " + "Secure")
  {
    AttributeLiterals();
    ConcatAssoc(";", " ", "Secure");
  }

  lemma MaxAgePart(n: int)
    ensures "; " + "Max-Age=" + IntToDecimal(n) == ";" + (" " + "Max-Age" + "=" + IntToDecimal(n))
    ensures ParseCookies(" " + "Max-Age" + "=" + IntToDecimal(n)) == Some(map["Max-Age" := IntToDecimal(n)])
  {
    AttributeLiterals();
    RegroupSetting("; ", ";", " ", "Max-Age=", "Max-Age", "=", IntToDecimal(n));
    MaxAgeSegment(n);
  }

  lemma RegroupSetting(sep: string, semi: string, sp: string, key: string, kk: string, eq: string, d: string)
    requires sep == semi + sp && key == kk + eq
    ensures sep + key + d == semi + (sp + kk + eq + d)
  {
  }

  lemma MaxAgeSegment(n: int)
    ensures ParseCookies(" " + "Max-Age" + "=" + IntToDecimal(n)) == Some(map["Max-Age" := IntToDecimal(n)])
  {
    var d := IntToDecimal(n);
    DecimalIsSolid(n);
    TrimEndOfSolid(d);
    AttributeNames();
    ParsePair(" ", "Max-Age", d);
    UriCodec.DecodePlain(d);
  }

  // ---- Worked examples ----------------------------------------------------------------

  /** `a=1; b=hello%20world; novalue` parses to a = "1", b = "hello world" and
      novalue = "". */
  lemma ExampleHeader()
    ensures ParseCookies("a=1; b=hello%20world; novalue")
      == Some(map["a" := "1", "b" := "hello world", "novalue" := ""])
  {
    var a, b, c := "a" + "=" + "1", " " + "b" + "=" + "hello%20world", " " + "novalue";
    HeaderText();
    ParseSolidPair("a", "1");
    EscapedSpacePair();
    ParseFlag(" ", "novalue");
    HeaderMaps();
    ParseThree("a=1; b=hello%20world; novalue", a, b, c, map["a" := "1"], map["b" := "hello world"], map["novalue" := ""]);
  }

  /** A header made of three parts parses to their cookies merged in order. */
  lemma ParseThree(h: string, a: string, b: string, c: string,
                   ma: map<string, string>, mb: map<string, string>, mc: map<string, string>)
    requires h == a + ";" + (b + ";" + c)
    requires ParseCookies(a) == Some(ma) && ParseCookies(b) == Some(mb) && ParseCookies(c) == Some(mc)
    ensures ParseCookies(h) == Some(ma + (mb + mc))
  {
    ParseAround(b, c);
    ParseAround(a, b + ";" + c);
  }

  lemma HeaderText()
    ensures "a=1; b=hello%20world; novalue"
      == ("a" + "=" + "1") + ";" + ((" " + "b" + "=" + "hello%20world") + ";" + (" " + "novalue"))
  {
  }

  lemma HeaderMaps()
    ensures map["a" := "1"] + (map["b" := "hello world"] + map["novalue" := ""])
      == map["a" := "1", "b" := "hello world", "novalue" := ""]
  {
  }

  /** ` b=hello%20world` is b = "hello world". */
  lemma EscapedSpacePair()
    ensures ParseCookies(" " + "b" + "=" + "hello%20world") == Some(map["b" := "hello world"])
  {
    assert Visible("hello%20world");
    VisibleHasNoTrimmable("hello%20world");
    TrimEndOfSolid("hello%20world");
    ParsePair(" ", "b", "hello%20world");
    UriCodec.DecodeEscapedSpace();
  }

  /** `a=b=c` is the cookie a with the value "b=c". */
  lemma ExampleSecondEquals()
    ensures ParseCookies("a=b=c") == Some(map["a" := "b=c"])
  {
    SecondEqualsText();
    ParseSolidPair("a", "b=c");
  }

  lemma SecondEqualsText()
    ensures "a" + "=" + "b=c" == "a=b=c"
  {
  }

  /** `a%zz` has no `=`, so it is kept undecoded instead of failing. */
  lemma ExampleRawName()
    ensures ParseCookies("a%zz") == Some(map["a%zz" := ""])
  {
    assert "a%zz" == "" + "a%zz";
    ParseFlag("", "a%zz");
  }

  /** `session=a;session=b` keeps the last value. */
  lemma ExampleRepeatedName()
    ensures ParseCookies("session=a;session=b") == Some(map["session" := "b"])
  {
    RepeatedText();
    RepeatedSolidPair("session", "a", "b");
  }

  lemma RepeatedText()
    ensures "session=a;session=b" == ("session" + "=" + "a") + ";" + ("session" + "=" + "b")
  {
  }

  /** `session=%zz` makes `parseCookies` throw. */
  lemma ExampleMalformedValue()
    ensures ParseCookies("session=%zz") == None
  {
    MalformedValueText();
    SessionNameIsPlain();
    BrokenEscapeFails(SessionCookie);
  }

  lemma MalformedValueText()
    ensures "session=%zz" == SessionCookie + "=" + "%zz"
  {
  }

  /** A cookie whose value is the broken escape `%zz` fails the parse. */
  lemma BrokenEscapeFails(name: string)
    requires PlainName(name)
    ensures ParseCookies(name + "=" + "%zz") == None
  {
    BrokenEscapeIsSolid();
    ParseBarePair(name, "%zz");
    UriCodec.IncompleteEscapesFail();
  }

  lemma BrokenEscapeIsSolid()
    ensures TrimEnd("%zz") == "%zz"
  {
    assert Visible("%zz");
    VisibleHasNoTrimmable("%zz");
    TrimEndOfSolid("%zz");
  }
}
