/**
 * `extract_params`: the distinct names of a URL's query fields, as
 * `list(parse_qs(urlparse(url).query).keys())` computes them with
 * `parse_qs`'s defaults (blank values dropped, lenient parsing).
 */
module Query {
  import opened Wrappers
  import opened Strings
  import opened Seqs

  /**
   * Percent-decoding of a name that contains '%' (`unquote` with UTF-8
   * and replacement of bad bytes). It is a parameter of the model.
   */
  type Unescape = string -> string

  /** Tab, carriage return and line feed: `urlsplit` deletes them before parsing. */
  predicate IsDroppedUrlChar(c: char)
  {
    c == '\t' || c == '\r' || c == '\n'
  }

  /** The URL with tab, CR and LF deleted, everything else kept in order. */
  function RemoveDropped(url: string): (r: string)
    ensures |r| <= |url|
    ensures forall i | 0 <= i < |r| :: !IsDroppedUrlChar(r[i])
  {
    if url == [] then []
    else
      (if IsDroppedUrlChar(url[0]) then [] else [url[0]]) + RemoveDropped(url[1..])
  }

  /** The part of `u` before its first '#': the fragment is split off before the query. */
  function CutFragment(u: string): (r: string)
    ensures '#' !in r
    ensures |r| <= |u| && r == u[..|r|]
    ensures |r| < |u| ==> u[|r|] == '#'
  {
    if u == [] || u[0] == '#' then []
    else
      var rest := CutFragment(u[1..]);
      assert [u[0]] + rest == u[..|rest| + 1];
      [u[0]] + rest
  }

  /**
   * `urlparse(url).query`: after deleting tab, CR and LF and cutting off
   * the fragment, the text after the first '?', or "" when there is none.
   */
  function QueryOf(url: string): (q: string)
    ensures '#' !in q
    ensures forall i | 0 <= i < |q| :: !IsDroppedUrlChar(q[i])
  {
    var u := CutFragment(RemoveDropped(url));
    match Find(u, '?')
    case Some(j) => u[j + 1..]
    case None => ""
  }

  /**
   * The query is empty when the cleaned, fragment-free URL has no '?', and
   * otherwise is everything after its first '?'.
   */
  lemma QueryAfterFirstMark(url: string)
    ensures var u, q := CutFragment(RemoveDropped(url)), QueryOf(url);
      && ('?' !in u ==> q == "")
      && ('?' in u ==> var m := |u| - |q| - 1;
            0 <= m && u[m] == '?' && '?' !in u[..m] && q == u[m + 1..])
  {
    var u := CutFragment(RemoveDropped(url));
    var found := Find(u, '?');
    if found.Some? {
      var j := found.value;
      assert QueryOf(url) == u[j + 1..];
      assert |u| - |u[j + 1..]| - 1 == j;
    }
  }

  /** `name.replace('+', ' ')`. */
  function PlusToSpace(s: string): (r: string)
    ensures |r| == |s| && '+' !in r
  {
    seq(|s|, i requires 0 <= i < |s| => if s[i] == '+' then ' ' else s[i])
  }

  /** `unquote(s)`: a string without '%' comes back unchanged. */
  function Unquote(s: string, unescape: Unescape): string
  {
    if '%' in s then unescape(s) else s
  }

  /** How `parse_qsl` decodes a field name: '+' becomes a space, then percent-decoding. */
  function DecodeName(raw: string, unescape: Unescape): string
  {
    Unquote(PlusToSpace(raw), unescape)
  }

  /**
   * What `parse_qsl` keeps of one '&'-separated field: the decoded text
   * before the first '=' when the field has a non-empty value (or when
   * blank values are kept), otherwise nothing. An empty field, and a field
   * without '=' when blank values are dropped, give nothing.
   */
  function FieldName(field: string, keepBlank: bool, unescape: Unescape): (name: Option<string>)
    ensures name.Some? ==> field != ""
    ensures keepBlank && field != "" ==> name.Some?
    ensures '=' !in field ==> name == if field != "" && keepBlank then Some(DecodeName(field, unescape)) else None
  {
    if field == "" then None
    else
      match Find(field, '=')
      case None => if keepBlank then Some(DecodeName(field, unescape)) else None
      case Some(i) =>
        if i + 1 < |field| || keepBlank then Some(DecodeName(field[..i], unescape)) else None
  }

  /** The names `parse_qsl` yields for the fields, in order, repeats included. */
  function FieldNames(fields: seq<string>, keepBlank: bool, unescape: Unescape): (names: seq<string>)
    ensures |names| <= |fields|
  {
    if fields == [] then []
    else
      var rest := FieldNames(fields[1..], keepBlank, unescape);
      match FieldName(fields[0], keepBlank, unescape)
      case Some(name) => [name] + rest
      case None => rest
  }

  /** `[name for name, value in parse_qsl(query, keepBlank)]`; an empty query gives none. */
  function ParseQsNames(query: string, keepBlank: bool, unescape: Unescape): seq<string>
  {
    if query == "" then [] else FieldNames(Split(query, '&'), keepBlank, unescape)
  }

  /** `list(parse_qs(query, keepBlank).keys())`: the dict keeps each name where it first occurs. */
  function ParseQsKeys(query: string, keepBlank: bool, unescape: Unescape): seq<string>
  {
    Distinct(ParseQsNames(query, keepBlank, unescape))
  }

  /** The names of the URL's query fields in query order, repeats included. */
  function QueryNames(url: string, unescape: Unescape): seq<string>
  {
    ParseQsNames(QueryOf(url), false, unescape)
  }

  /** `extract_params(url)`: no key is returned twice. */
  function ExtractParams(url: string, unescape: Unescape): (keys: seq<string>)
    ensures forall i, j | 0 <= i < j < |keys| :: keys[i] != keys[j]
  {
    ParseQsKeys(QueryOf(url), false, unescape)
  }

  /**
   * With blank values dropped, a field yields a name exactly when some
   * '=' in it is followed by at least one character, i.e. the value after
   * the first '=' is not empty.
   */
  lemma FieldKeptIff(field: string, unescape: Unescape)
    ensures FieldName(field, false, unescape).Some? <==> |field| > 0 && '=' in field[..|field| - 1]
  {
    if |field| > 0 {
      match Find(field, '=')
      case None =>
        assert forall c | c in field[..|field| - 1] :: c in field;
      case Some(i) =>
        if i + 1 == |field| {
          assert field[..|field| - 1] == field[..i];
        } else {
          assert field[..|field| - 1][i] == '=';
        }
    }
  }

  /** A kept field's name is the decoded text before its first '='. */
  lemma FieldNameBeforeFirstEquals(field: string, i: nat, keepBlank: bool, unescape: Unescape)
    requires i < |field| && field[i] == '=' && '=' !in field[..i]
    ensures FieldName(field, keepBlank, unescape)
      == if i + 1 < |field| || keepBlank then Some(DecodeName(field[..i], unescape)) else None
  {
    FindIsFirst(field, '=', i);
  }

  /** A name is yielded exactly when one of the fields yields it. */
  lemma {:induction false} FieldNamesMembers(fields: seq<string>, keepBlank: bool, unescape: Unescape, name: string)
    ensures name in FieldNames(fields, keepBlank, unescape)
        <==> exists k | 0 <= k < |fields| :: FieldName(fields[k], keepBlank, unescape) == Some(name)
  {
    if fields != [] {
      FieldNamesMembers(fields[1..], keepBlank, unescape, name);
      if exists k | 0 <= k < |fields| :: FieldName(fields[k], keepBlank, unescape) == Some(name) {
        var k :| 0 <= k < |fields| && FieldName(fields[k], keepBlank, unescape) == Some(name);
        if k > 0 {
          assert fields[1..][k - 1] == fields[k];
        }
      }
      if exists k | 0 <= k < |fields[1..]| :: FieldName(fields[1..][k], keepBlank, unescape) == Some(name) {
        var k :| 0 <= k < |fields[1..]| && FieldName(fields[1..][k], keepBlank, unescape) == Some(name);
        assert fields[k + 1] == fields[1..][k];
      }
    }
  }

  /**
   * A key is returned by `extract_params` exactly when some '&'-separated
   * field of the query has a non-empty value after its first '=' and the
   * decoded text before that '=' is the key.
   */
  lemma ExtractParamsMembers(url: string, unescape: Unescape, key: string)
    ensures key in ExtractParams(url, unescape)
        <==> exists f | f in Split(QueryOf(url), '&') :: FieldName(f, false, unescape) == Some(key)
  {
    var q := QueryOf(url);
    var fields := Split(q, '&');
    var names := ParseQsNames(q, false, unescape);
    assert key in ExtractParams(url, unescape) <==> key in names by {
      var keys := Distinct(names);
      if key in names {
        var i :| 0 <= i < |names| && names[i] == key;
      }
      if key in keys {
        var i :| 0 <= i < |keys| && keys[i] == key;
      }
    }
    if q == "" {
      assert fields == [""];
    } else {
      FieldNamesMembers(fields, false, unescape, key);
      if exists f | f in fields :: FieldName(f, false, unescape) == Some(key) {
        var f :| f in fields && FieldName(f, false, unescape) == Some(key);
        var k :| 0 <= k < |fields| && fields[k] == f;
      }
    }
  }

  /** The keys come in the order in which each first appears among the query's names. */
  lemma ExtractParamsFirstSeen(url: string, unescape: Unescape)
    ensures ExtractParams(url, unescape) == Distinct(QueryNames(url, unescape))
    ensures forall i, j | 0 <= i < j < |ExtractParams(url, unescape)| ::
      FirstIndex(QueryNames(url, unescape), ExtractParams(url, unescape)[i])
      < FirstIndex(QueryNames(url, unescape), ExtractParams(url, unescape)[j])
  {
    DistinctFirstSeenOrder(QueryNames(url, unescape));
  }

  lemma RemoveDroppedCons(a: char, s: string)
    ensures RemoveDropped([a] + s) == (if IsDroppedUrlChar(a) then [] else [a]) + RemoveDropped(s)
  {
    assert ([a] + s)[1..] == s;
  }

  lemma CutFragmentCons(a: char, s: string)
    ensures CutFragment([a] + s) == if a == '#' then [] else [a] + CutFragment(s)
  {
    assert ([a] + s)[1..] == s;
  }

  /** Deleting tab, CR and LF and cutting off the fragment can be done in either order. */
  lemma {:induction false} CutFragmentAfterRemoveDropped(url: string)
    ensures CutFragment(RemoveDropped(url)) == RemoveDropped(CutFragment(url))
  {
    if url != [] {
      var a, tail := url[0], url[1..];
      assert url == [a] + tail;
      var rest := RemoveDropped(tail);
      RemoveDroppedCons(a, tail);
      CutFragmentCons(a, tail);
      if a == '#' {
        CutFragmentCons(a, rest);
      } else {
        CutFragmentAfterRemoveDropped(tail);
        RemoveDroppedCons(a, CutFragment(tail));
        if IsDroppedUrlChar(a) {
          calc {
            CutFragment(RemoveDropped(url));
            CutFragment([] + rest);
            { assert [] + rest == rest; }
            CutFragment(rest);
            RemoveDropped(CutFragment(tail));
            RemoveDropped([a] + CutFragment(tail));
            RemoveDropped(CutFragment(url));
          }
        } else {
          CutFragmentCons(a, rest);
          calc {
            CutFragment(RemoveDropped(url));
            CutFragment([a] + rest);
            [a] + CutFragment(rest);
            [a] + RemoveDropped(CutFragment(tail));
            RemoveDropped([a] + CutFragment(tail));
            RemoveDropped(CutFragment(url));
          }
        }
      }
    }
  }

  /** Deleting characters adds no '?'. */
  lemma {:induction false} RemoveDroppedSubset(s: string, c: char)
    requires c !in s
    ensures c !in RemoveDropped(s)
  {
    if s != [] {
      assert c !in s[1..] by { assert forall x | x in s[1..] :: x in s; }
      RemoveDroppedSubset(s[1..], c);
    }
  }

  /** A URL with no '?' before its first '#' has no query, so no keys. */
  lemma NoQueryNoParams(url: string, unescape: Unescape)
    requires '?' !in CutFragment(url)
    ensures QueryOf(url) == ""
    ensures ExtractParams(url, unescape) == []
  {
    CutFragmentAfterRemoveDropped(url);
    RemoveDroppedSubset(CutFragment(url), '?');
  }

  /** The query of `p?q` is `q` when `p` has no '?' and neither part has '#', tab, CR or LF. */
  lemma QueryAfterMark(p: string, q: string)
    requires '?' !in p && '#' !in p && '#' !in q
    requires forall i | 0 <= i < |p| :: !IsDroppedUrlChar(p[i])
    requires forall i | 0 <= i < |q| :: !IsDroppedUrlChar(q[i])
    ensures QueryOf(p + "?" + q) == q
  {
    var url := p + "?" + q;
    assert forall i | 0 <= i < |url| :: !IsDroppedUrlChar(url[i]) by {
      forall i | 0 <= i < |url| ensures !IsDroppedUrlChar(url[i]) {
        if i > |p| { assert url[i] == q[i - |p| - 1]; }
      }
    }
    RemoveDroppedKeeps(url);
    assert '#' !in url by {
      assert forall i | 0 <= i < |url| :: url[i] == if i < |p| then p[i] else if i == |p| then '?' else q[i - |p| - 1];
    }
    CutFragmentKeeps(url);
    assert url[..|p|] == p;
    FindIsFirst(url, '?', |p|);
    assert url[|p| + 1..] == q;
  }

  /** The query of `p?q#f` is `q`: the fragment is cut off before the query is taken. */
  lemma QueryBeforeFragment(p: string, q: string, f: string)
    requires '?' !in p && '#' !in p && '#' !in q
    requires forall i | 0 <= i < |p| :: !IsDroppedUrlChar(p[i])
    requires forall i | 0 <= i < |q| :: !IsDroppedUrlChar(q[i])
    requires forall i | 0 <= i < |f| :: !IsDroppedUrlChar(f[i])
    ensures QueryOf(p + "?" + q + "#" + f) == q
  {
    var pq := p + "?" + q;
    NoDroppedAround(p, '?', q);
    assert '#' !in pq by {
      assert forall i | 0 <= i < |pq| :: pq[i] == if i < |p| then p[i] else if i == |p| then '?' else q[i - |p| - 1];
    }
    CleanedCut(pq, f);
    RemoveDroppedKeeps(pq);
    CutFragmentKeeps(pq);
    QueryAfterMark(p, q);
  }

  /** Cleaning and cutting `u#f`, with no '#' in `u` and no tab, CR or LF anywhere, leaves `u`. */
  lemma CleanedCut(u: string, f: string)
    requires '#' !in u
    requires forall i | 0 <= i < |u| :: !IsDroppedUrlChar(u[i])
    requires forall i | 0 <= i < |f| :: !IsDroppedUrlChar(f[i])
    ensures CutFragment(RemoveDropped(u + "#" + f)) == u
  {
    var url := u + "#" + f;
    CleanJoin(u, f, url);
    CutAtJoin(u, f, url);
  }

  /** `u#f` with no tab, CR or LF in `u` or `f` is left alone by their removal. */
  lemma CleanJoin(u: string, f: string, url: string)
    requires url == u + "#" + f
    requires forall i | 0 <= i < |u| :: !IsDroppedUrlChar(u[i])
    requires forall i | 0 <= i < |f| :: !IsDroppedUrlChar(f[i])
    ensures RemoveDropped(url) == url
  {
    NoDroppedAround(u, '#', f);
    RemoveDroppedKeeps(url);
  }

  /** `u#f` with no '#' in `u` is cut back to `u`. */
  lemma CutAtJoin(u: string, f: string, url: string)
    requires url == u + "#" + f
    requires '#' !in u
    ensures CutFragment(url) == u
  {
    assert url[|u|] == '#';
    assert url[..|u|] == u;
    CutFragmentAt(url, |u|);
  }

  /** Joining two texts without tab, CR or LF by another character gives a text without them. */
  lemma NoDroppedAround(a: string, c: char, b: string)
    requires !IsDroppedUrlChar(c)
    requires forall i | 0 <= i < |a| :: !IsDroppedUrlChar(a[i])
    requires forall i | 0 <= i < |b| :: !IsDroppedUrlChar(b[i])
    ensures forall i | 0 <= i < |a + [c] + b| :: !IsDroppedUrlChar((a + [c] + b)[i])
  {
    var s := a + [c] + b;
    forall i | 0 <= i < |s|
      ensures !IsDroppedUrlChar(s[i])
    {
      if i < |a| { assert s[i] == a[i]; }
      else if i > |a| { assert s[i] == b[i - |a| - 1]; }
    }
  }

  /** A URL cut at its first '#' keeps exactly the text before it. */
  lemma CutFragmentAt(u: string, k: nat)
    requires k < |u| && u[k] == '#' && '#' !in u[..k]
    ensures CutFragment(u) == u[..k]
  {
    var r := CutFragment(u);
    assert |r| < |u| ==> u[|r|] == '#';
    assert forall i | 0 <= i < k :: u[i] == u[..k][i];
  }

  /** A field `k=v` whose name has no '=' yields the decoded `k`, unless `v` is blank and blanks are dropped. */
  lemma FieldNameOfPair(k: string, v: string, keepBlank: bool, unescape: Unescape)
    requires '=' !in k
    ensures FieldName(k + "=" + v, keepBlank, unescape)
      == if v != "" || keepBlank then Some(DecodeName(k, unescape)) else None
  {
    var f := k + "=" + v;
    assert f[..|k|] == k;
    FieldNameBeforeFirstEquals(f, |k|, keepBlank, unescape);
  }

  /** A name without '+' or '%' decodes to itself. */
  lemma PlainNameDecodes(k: string, unescape: Unescape)
    requires '+' !in k && '%' !in k
    ensures DecodeName(k, unescape) == k
  {
    assert PlusToSpace(k) == k;
  }

  /** A name that `parse_qsl` takes as it is and that ends at '=' or '&'. */
  predicate PlainName(k: string)
  {
    k != "" && '=' !in k && '&' !in k && '#' !in k && '+' !in k && '%' !in k
    && forall i | 0 <= i < |k| :: !IsDroppedUrlChar(k[i])
  }

  /** A value that keeps its field whole: no '&', '#', tab, CR or LF. */
  predicate PlainValue(v: string)
  {
    '&' !in v && '#' !in v && forall i | 0 <= i < |v| :: !IsDroppedUrlChar(v[i])
  }

  /** The fields `k=v` built from matching names and values. */
  function Pairs(ks: seq<string>, vs: seq<string>): (fields: seq<string>)
    requires |ks| == |vs|
    ensures |fields| == |ks|
    ensures forall i | 0 <= i < |ks| :: fields[i] == ks[i] + "=" + vs[i]
  {
    seq(|ks|, i requires 0 <= i < |ks| => ks[i] + "=" + vs[i])
  }

  /** The names whose value is non-empty, or all of them when blank values are kept. */
  function KeptNames(ks: seq<string>, vs: seq<string>, keepBlank: bool): (r: seq<string>)
    requires |ks| == |vs|
    ensures keepBlank ==> r == ks
  {
    if ks == [] then []
    else (if vs[0] != "" || keepBlank then [ks[0]] else []) + KeptNames(ks[1..], vs[1..], keepBlank)
  }

  /** `parse_qsl` of plain `k=v` fields yields the names with a non-empty value (all of them when blanks are kept). */
  lemma {:induction false} PairsNames(ks: seq<string>, vs: seq<string>, keepBlank: bool, unescape: Unescape)
    requires |ks| == |vs| && forall i | 0 <= i < |ks| :: PlainName(ks[i])
    ensures FieldNames(Pairs(ks, vs), keepBlank, unescape) == KeptNames(ks, vs, keepBlank)
  {
    if ks != [] {
      var fields := Pairs(ks, vs);
      assert fields[1..] == Pairs(ks[1..], vs[1..]);
      PairsNames(ks[1..], vs[1..], keepBlank, unescape);
      assert PlainName(ks[0]);
      FieldNameOfPair(ks[0], vs[0], keepBlank, unescape);
      PlainNameDecodes(ks[0], unescape);
    }
  }

  /**
   * The URL of tests/test_core.py, `https://example.com/?a=1&b=2&b=3&empty=`,
   * has this shape: a query of the fields `a=v1`, `b=v2`, `b=v3`, `e=`.
   * With blank values dropped (the default `extract_params` uses) `e=`
   * yields no key and the keys are `[a, b]`; only with blank values kept
   * would `e` be a key too, as that test expects.
   */
  lemma TestShapeKeys(p: string, a: string, b: string, e: string, v1: string, v2: string, v3: string,
                      unescape: Unescape)
    requires '?' !in p && '#' !in p && forall i | 0 <= i < |p| :: !IsDroppedUrlChar(p[i])
    requires PlainName(a) && PlainName(b) && PlainName(e) && a != b && e != a && e != b
    requires PlainValue(v1) && PlainValue(v2) && PlainValue(v3)
    requires v1 != "" && v2 != "" && v3 != ""
    ensures ExtractParams(p + "?" + Join("&", Pairs([a, b, b, e], [v1, v2, v3, ""])), unescape) == [a, b]
    ensures ParseQsKeys(Join("&", Pairs([a, b, b, e], [v1, v2, v3, ""])), true, unescape) == [a, b, e]
  {
    var ks, vs := [a, b, b, e], [v1, v2, v3, ""];
    var fields := Pairs(ks, vs);
    var q := Join("&", fields);
    PlainPairs(ks, vs);
    JoinChars(fields, '&');
    QueryAfterMark(p, q);
    SplitJoin(fields, '&');
    assert q != "" by { assert |q| >= |fields[0]|; }
    PairsNames(ks, vs, false, unescape);
    PairsNames(ks, vs, true, unescape);
    TestShapeKept(a, b, e, v1, v2, v3);
    TestShapeDistinct(a, b, e);
  }

  /** Of the names `a, b, b, e` with values `v1, v2, v3, ""`, blank values dropped, `a, b, b` remain. */
  lemma TestShapeKept(a: string, b: string, e: string, v1: string, v2: string, v3: string)
    requires v1 != "" && v2 != "" && v3 != ""
    ensures KeptNames([a, b, b, e], [v1, v2, v3, ""], false) == [a, b, b]
  {
    var ks, vs := [a, b, b, e], [v1, v2, v3, ""];
    assert KeptNames(ks[3..], vs[3..], false) == [];
    assert ks[2..][1..] == ks[3..] && vs[2..][1..] == vs[3..];
    assert KeptNames(ks[2..], vs[2..], false) == [b];
    assert ks[1..][1..] == ks[2..] && vs[1..][1..] == vs[2..];
    assert KeptNames(ks[1..], vs[1..], false) == [b, b];
  }

  /** The dict keys of the names `a, b, b` and `a, b, b, e`. */
  lemma TestShapeDistinct(a: string, b: string, e: string)
    requires a != b && e != a && e != b
    ensures Distinct([a, b, b]) == [a, b]
    ensures Distinct([a, b, b, e]) == [a, b, e]
  {
    var ks := [a, b, b, e];
    var d := [a, b, b];
    assert d[..2][..1] == [a];
    assert Distinct(d[..2]) == [a, b];
    assert Distinct(d) == [a, b];
    assert ks[..3] == d;
  }

  /** The fields built from plain names and values have no '&', '#', tab, CR or LF. */
  lemma PlainPairs(ks: seq<string>, vs: seq<string>)
    requires |ks| == |vs|
    requires forall i | 0 <= i < |ks| :: PlainName(ks[i]) && PlainValue(vs[i])
    ensures forall i | 0 <= i < |ks| :: var f := Pairs(ks, vs)[i];
      '&' !in f && '#' !in f && forall j | 0 <= j < |f| :: !IsDroppedUrlChar(f[j])
  {
    forall i | 0 <= i < |ks|
      ensures var f := Pairs(ks, vs)[i];
        '&' !in f && '#' !in f && forall j | 0 <= j < |f| :: !IsDroppedUrlChar(f[j])
    {
      PairChars(ks[i], vs[i]);
    }
  }

  /** A field `k=v` of a plain name and value has no '&', '#', tab, CR or LF. */
  lemma PairChars(k: string, v: string)
    requires PlainName(k) && PlainValue(v)
    ensures var f := k + "=" + v;
      '&' !in f && '#' !in f && forall i | 0 <= i < |f| :: !IsDroppedUrlChar(f[i])
  {
    var f := k + "=" + v;
    forall i | 0 <= i < |f|
      ensures f[i] != '&' && f[i] != '#' && !IsDroppedUrlChar(f[i])
    {
      if i < |k| { assert f[i] == k[i]; }
      else if i > |k| { assert f[i] == v[i - |k| - 1]; }
    }
  }

  /** Every character of a join is the separator or a character of some part. */
  lemma {:induction false} JoinChars(parts: seq<string>, sep: char)
    requires sep != '#' && !IsDroppedUrlChar(sep)
    requires forall k | 0 <= k < |parts| :: '#' !in parts[k] && forall i | 0 <= i < |parts[k]| :: !IsDroppedUrlChar(parts[k][i])
    ensures var j := Join([sep], parts);
      '#' !in j && forall i | 0 <= i < |j| :: !IsDroppedUrlChar(j[i])
  {
    if |parts| > 1 {
      JoinChars(parts[1..], sep);
      var rest := Join([sep], parts[1..]);
      var j := parts[0] + [sep] + rest;
      forall i | 0 <= i < |j|
        ensures j[i] != '#' && !IsDroppedUrlChar(j[i])
      {
        if i < |parts[0]| { assert j[i] == parts[0][i]; }
        else if i > |parts[0]| { assert j[i] == rest[i - |parts[0]| - 1]; }
      }
    }
  }

  /** Cutting the fragment changes nothing in a URL without '#'. */
  lemma {:induction false} CutFragmentKeeps(u: string)
    requires '#' !in u
    ensures CutFragment(u) == u
  {
    if u != [] {
      assert '#' !in u[1..] by { assert forall c | c in u[1..] :: c in u; }
      CutFragmentKeeps(u[1..]);
      assert u == [u[0]] + u[1..];
    }
  }

  /** Deleting tab, CR and LF changes nothing in a URL that has none. */
  lemma {:induction false} RemoveDroppedKeeps(url: string)
    requires forall i | 0 <= i < |url| :: !IsDroppedUrlChar(url[i])
    ensures RemoveDropped(url) == url
  {
    if url != [] {
      RemoveDroppedKeeps(url[1..]);
      assert url == [url[0]] + url[1..];
    }
  }
}
