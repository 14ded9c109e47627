/**
 OPC UA node identifiers as text: the parser of the core package, the printer of the
 OPC UA driver, and the driver's step from a parsed identifier to a node.
 */
module NodeId {
  import opened Wrappers
  import opened Text

  const NAMESPACES := 0x1_0000
  const NUMERIC_IDS := 0x1_0000_0000

  datatype Kind = NumericKind | StringKind | GuidKind | OpaqueKind {
    function Letter(): char {
      match this
      case NumericKind => 'i'
      case StringKind => 's'
      case GuidKind => 'g'
      case OpaqueKind => 'b'
    }

    function Sep(): string {
      [';', Letter(), '=']
    }
  }

  /** The order in which the parser looks for separators. */
  const KINDS: seq<Kind> := [NumericKind, StringKind, GuidKind, OpaqueKind]

  function Rank(k: Kind): (r: nat)
    ensures r < 4 && KINDS[r] == k
  {
    match k
    case NumericKind => 0
    case StringKind => 1
    case GuidKind => 2
    case OpaqueKind => 3
  }

  /** A node as the OPC UA stack holds it; `id` is the string form for all but numbers. */
  datatype Node = Numeric(ns: nat, number: nat) | Named(ns: nat, kind: Kind, id: string)

  predicate Wellformed(n: Node) {
    n.ns < NAMESPACES && if n.Numeric? then n.number < NUMERIC_IDS else n.kind != NumericKind
  }

  /** What the parser returns; an empty `uri` means the namespace was given by index. */
  datatype Parsed = Parsed(ns: nat, uri: string, kind: Kind, id: string)

  predicate HasPrefix(s: string, prefix: string) {
    OccursAt(s, prefix, 0)
  }

  /** The first separator of the first kind that occurs anywhere in the text. */
  function FindIdentSep(raw: string, from: nat := 0): (r: Option<(nat, Kind)>)
    requires from <= 4
    ensures r.Some? ==> OccursAt(raw, r.value.1.Sep(), r.value.0) && from <= Rank(r.value.1)
    decreases 4 - from
  {
    if from == 4 then None
    else
      var i := Index(raw, KINDS[from].Sep());
      if i.Some? then Some((i.value, KINDS[from])) else FindIdentSep(raw, from + 1)
  }

  function Expand(raw: string): string {
    if HasPrefix(raw, "ns=") || HasPrefix(raw, "nsu=") then raw
    else if HasPrefix(raw, "i=") || HasPrefix(raw, "s=") || HasPrefix(raw, "g=") || HasPrefix(raw, "b=") then
      "ns=0;" + raw
    else raw
  }

  function Namespace(prefix: string, kind: Kind, id: string): Result<Parsed> {
    if HasPrefix(prefix, "ns=") then
      var n := ParseUint(prefix[3..], NAMESPACES);
      if n.None? then Err else Ok(Parsed(n.value, "", kind, id))
    else if HasPrefix(prefix, "nsu=") then
      var uri := TrimSpace(prefix[4..]);
      if uri == "" then Err else Ok(Parsed(0, uri, kind, id))
    else Err
  }

  function Assemble(prefix: string, kind: Kind, id: string): Result<Parsed> {
    if id == "" || (kind == NumericKind && ParseUint(id, NUMERIC_IDS).None?) then Err
    else Namespace(prefix, kind, id)
  }

  function ParseTrimmed(raw: string): Result<Parsed> {
    var sep := FindIdentSep(raw);
    if sep.None? then Err
    else
      var (at, kind) := sep.value;
      Assemble(TrimSpace(raw[..at]), kind, TrimSpace(raw[at + 3..]))
  }

  function Parse(raw: string): Result<Parsed> {
    if TrimSpace(raw) == "" then Err else ParseTrimmed(Expand(TrimSpace(raw)))
  }

  function Header(ns: nat, k: Kind): string {
    "ns=" + Decimal(ns) + k.Sep()
  }

  /** The printer of the browse code. */
  function Format(n: Node): string {
    if n.Numeric? then Header(n.ns, NumericKind) + Decimal(n.number) else Header(n.ns, n.kind) + n.id
  }

  /** The driver's node for a parsed identifier: numbers and strings only. */
  function Resolve(p: Parsed, lookup: string -> Option<nat>): Result<Node> {
    var ns := if p.uri == "" then Some(p.ns) else lookup(p.uri);
    if ns.None? then Err
    else if p.kind == NumericKind then
      var n := ParseUint(p.id, NUMERIC_IDS);
      if n.None? then Err else Ok(Numeric(ns.value, n.value))
    else if p.kind == StringKind then Ok(Named(ns.value, StringKind, p.id))
    else Err
  }

  /** The identifier contains the separator of a kind the parser looks for first. */
  predicate Shadowed(kind: Kind, id: string) {
    exists j | 0 <= j < Rank(kind) :: Contains(id, KINDS[j].Sep())
  }

  // ---- searching a printed text ------------------------------------------

  lemma SliceOccurrences(s: string, lo: nat, t: string, sep: string)
    requires lo + |t| <= |s| && s[lo..lo + |t|] == t && Contains(t, sep)
    ensures Contains(s, sep)
  {
    var at: nat :| at <= |t| && OccursAt(t, sep, at);
    forall k | 0 <= k < |sep| ensures s[lo + at + k] == sep[k] {
      assert s[lo..lo + |t|][at + k] == t[at + k] == t[at..at + |sep|][k];
    }
    assert OccursAt(s, sep, lo + at);
  }

  ghost predicate NoSeparators(pre: string) {
    forall e: Kind :: !Contains(pre, e.Sep())
  }

  /** Only the separator itself can match before the identifier starts. */
  lemma HeaderOccurrences(pre: string, k: Kind, id: string, e: Kind, at: nat)
    requires NoSeparators(pre) && OccursAt(pre + k.Sep() + id, e.Sep(), at)
    ensures at < |pre| + 3 ==> e == k && at == |pre|
    ensures at >= |pre| + 3 ==> OccursAt(id, e.Sep(), at - |pre| - 3)
  {
    var text := pre + k.Sep() + id;
    assert text[at..at + 3][0] == ';' && text[at..at + 3][1] == e.Letter() && text[at..at + 3][2] == '=';
    assert text[at] == ';' && text[at + 1] == e.Letter() && text[at + 2] == '=';
    assert text[|pre|] == ';' && text[|pre| + 1] == k.Letter() && text[|pre| + 2] == '=';
    if at + 3 <= |pre| {
      assert pre[at..at + 3] == text[at..at + 3] == e.Sep();
      assert OccursAt(pre, e.Sep(), at);
    } else if at >= |pre| + 3 {
      assert id[at - |pre| - 3..at - |pre|] == text[at..at + 3];
    }
  }

  lemma SearchFrom(pre: string, k: Kind, id: string, from: nat)
    requires NoSeparators(pre) && from <= Rank(k)
    requires forall j | 0 <= j < from :: !Contains(id, KINDS[j].Sep())
    ensures !Shadowed(k, id) ==> FindIdentSep(pre + k.Sep() + id, from) == Some((|pre|, k))
    ensures Shadowed(k, id) ==>
      var r := FindIdentSep(pre + k.Sep() + id, from);
      r.Some? && r.value.0 >= |pre| + 3 && r.value.1 != k
    decreases Rank(k) - from
  {
    var e := KINDS[from];
    var i := Index(pre + k.Sep() + id, e.Sep());
    if from == Rank(k) {
      OwnSeparatorIsFound(pre, k, id);
    } else if i.Some? {
      HeaderOccurrences(pre, k, id, e, i.value);
      assert Contains(id, e.Sep());
    } else {
      OthersAreFoundInside(pre + k.Sep(), id, e);
      SearchFrom(pre, k, id, from + 1);
    }
  }

  lemma OwnSeparatorIsFound(pre: string, k: Kind, id: string)
    requires NoSeparators(pre)
    ensures Index(pre + k.Sep() + id, k.Sep()) == Some(|pre|)
  {
    var text := pre + k.Sep() + id;
    assert text[|pre|..|pre| + 3] == k.Sep();
    assert OccursAt(text, k.Sep(), |pre|);
    HeaderOccurrences(pre, k, id, k, Index(text, k.Sep()).value);
  }

  lemma OthersAreFoundInside(h: string, id: string, e: Kind)
    requires Index(h + id, e.Sep()).None?
    ensures !Contains(id, e.Sep())
  {
    if Contains(id, e.Sep()) {
      assert (h + id)[|h|..|h| + |id|] == id;
      SliceOccurrences(h + id, |h|, id, e.Sep());
    }
  }

  lemma NoSemicolonNoSeparator(p: string)
    requires ';' !in p
    ensures NoSeparators(p)
  {
    forall e: Kind, at: nat | at <= |p| ensures !OccursAt(p, e.Sep(), at) {
      if at + 3 <= |p| {
        assert p[at..at + 3][0] == p[at] && p[at] in p;
      }
    }
  }

  lemma IndexHasNoSeparator(ns: nat)
    ensures NoSeparators("ns=" + Decimal(ns))
  {
    var p := "ns=" + Decimal(ns);
    forall i | 0 <= i < |p| ensures p[i] != ';' {
      if i >= 3 {
        assert p[i] == Decimal(ns)[i - 3];
      }
    }
    NoSemicolonNoSeparator(p);
  }

  lemma NamespaceOfDigits(h: string, d: string, k: Kind, id: string)
    requires h == "ns="
    requires d != "" && AllDigits(d) && Value(d) < NAMESPACES
    ensures Namespace(TrimSpace(h + d), k, id) == Ok(Parsed(Value(d), "", k, id))
  {
    var p := h + d;
    DigitsAreNotSpace(d);
    assert p[0] == h[0] == 'n' && p[|p| - 1] == d[|d| - 1];
    VisibleAsciiIsNotSpace('n');
    FixedIffTrimmed(p);
    assert p[0..3] == h && p[3..] == d;
  }

  lemma DigitsAreNotSpace(s: string)
    requires s != "" && AllDigits(s)
    ensures Trimmed(s)
  {
    assert IsDigit(s[0]) && IsDigit(s[|s| - 1]);
    VisibleAsciiIsNotSpace(s[0]);
    VisibleAsciiIsNotSpace(s[|s| - 1]);
  }

  /** A namespace text that runs past the printed header holds a ';' and is refused. */
  lemma LongPrefixFails(ns: nat, k: Kind, tail: string, e: Kind, id: string)
    ensures Namespace(TrimSpace(Header(ns, k) + tail), e, id) == Err
  {
    var h := Header(ns, k);
    var semi := 3 + |Decimal(ns)|;
    HeaderIsTrimmed(ns, k);
    TrimOfConcat(h, tail);
    assert h[semi] == ';';
    SemicolonFails(h + TrimRight(tail), semi, e, id);
  }

  lemma SemicolonFails(p: string, semi: nat, e: Kind, id: string)
    requires 3 <= semi < |p| && p[semi] == ';' && HasPrefix(p, "ns=")
    ensures Namespace(p, e, id) == Err
  {
    assert p[3..][semi - 3] == ';';
  }

  // ---- trimming a printed text ----------------------------------------------

  lemma {:induction false} TrimRightOfConcat(a: string, b: string)
    ensures TrimRight(a + b) == if TrimRight(b) == "" then TrimRight(a) else a + TrimRight(b)
  {
    if b == "" {
      assert a + b == a;
    } else if IsSpace(b[|b| - 1]) {
      TrimRightOfConcat(a, b[..|b| - 1]);
      assert (a + b)[..|a + b| - 1] == a + b[..|b| - 1];
    }
  }

  lemma {:induction false} TrimCommutes(s: string)
    ensures TrimLeft(TrimRight(s)) == TrimSpace(s)
    ensures TrimSpace(TrimRight(s)) == TrimSpace(s)
  {
    TrimRightIdempotent(TrimLeft(s));
    if s == "" {
    } else if IsSpace(s[0]) {
      TrimOneSpace(s);
      TrimCommutes(s[1..]);
    } else {
      TrimKeepsHead(s);
    }
  }

  lemma TrimOneSpace(s: string)
    requires s != "" && IsSpace(s[0])
    ensures TrimLeft(s) == TrimLeft(s[1..])
    ensures TrimLeft(TrimRight(s)) == TrimLeft(TrimRight(s[1..]))
  {
    var one := [s[0]];
    assert s == one + s[1..];
    TrimRightOfConcat(one, s[1..]);
    SpaceTrimsAway(one, TrimRight(s[1..]));
  }

  lemma SpaceTrimsAway(one: string, r: string)
    requires |one| == 1 && IsSpace(one[0])
    ensures TrimRight(one) == "" && TrimLeft(one + r) == TrimLeft(r)
  {
    assert (one + r)[1..] == r && one[..0] == "";
  }

  lemma TrimKeepsHead(s: string)
    requires s != "" && !IsSpace(s[0])
    ensures TrimLeft(TrimRight(s)) == TrimRight(s) == TrimSpace(s)
  {
    assert s == [s[0]] + s[1..];
    TrimRightOfConcat([s[0]], s[1..]);
  }

  lemma TrimOfConcat(h: string, id: string)
    requires h != "" && Trimmed(h)
    ensures TrimSpace(h + id) == h + TrimRight(id)
  {
    TrimRightOfConcat(h, id);
    assert (h + id)[0] == h[0];
    assert TrimLeft(h + id) == h + id;
    assert TrimRight(h) == h;
  }

  lemma HeaderIsTrimmed(ns: nat, k: Kind)
    ensures Header(ns, k) != "" && Trimmed(Header(ns, k)) && HasPrefix(Header(ns, k), "ns=")
  {
    var h := Header(ns, k);
    assert h[0] == 'n' && h[|h| - 1] == '=';
    VisibleAsciiIsNotSpace('n');
    VisibleAsciiIsNotSpace('=');
    assert h[0..3] == "ns=";
  }

  lemma {:induction false} TrimKeepsSeparators(id: string, sep: string)
    requires |sep| > 0 && !IsSpace(sep[|sep| - 1])
    ensures Contains(TrimRight(id), sep) <==> Contains(id, sep)
  {
    if id != "" && IsSpace(id[|id| - 1]) {
      var d := id[..|id| - 1];
      TrimKeepsSeparators(d, sep);
      if Contains(d, sep) {
        var at: nat :| at <= |d| && OccursAt(d, sep, at);
        assert OccursAt(id, sep, at);
      }
      if Contains(id, sep) {
        var at: nat :| at <= |id| && OccursAt(id, sep, at);
        assert id[at + |sep| - 1] == sep[|sep| - 1];
        assert OccursAt(d, sep, at);
      }
    }
  }

  // ---- the round trip ----------------------------------------------------------

  lemma ParseOfTrimmedHeader(ns: nat, k: Kind, id: string)
    requires ns < NAMESPACES && TrimRight(id) == id
    ensures ParseTrimmed(Header(ns, k) + id) ==
            if TrimSpace(id) == "" || Shadowed(k, id) then Err
            else if k == NumericKind && ParseUint(TrimSpace(id), NUMERIC_IDS).None? then Err
            else Ok(Parsed(ns, "", k, TrimSpace(id)))
  {
    var h := Header(ns, k);
    var text := h + id;
    var pre := "ns=" + Decimal(ns);
    IndexHasNoSeparator(ns);
    if Shadowed(k, id) {
      SearchFrom(pre, k, id, 0);
      var (at, kind) := FindIdentSep(text).value;
      assert text[..at] == h + id[..at - |h|];
      LongPrefixFails(ns, k, id[..at - |h|], kind, TrimSpace(text[at + 3..]));
    } else {
      UnshadowedHead(pre, k, id);
      ValueOfDecimal(ns);
      NamespaceOfDigits("ns=", Decimal(ns), k, TrimSpace(id));
    }
  }

  /** The text before the separator is the namespace, what follows is the identifier. */
  lemma UnshadowedHead(pre: string, k: Kind, id: string)
    requires NoSeparators(pre) && !Shadowed(k, id)
    ensures ParseTrimmed(pre + k.Sep() + id) == Assemble(TrimSpace(pre), k, TrimSpace(id))
  {
    var text := pre + k.Sep() + id;
    SearchFrom(pre, k, id, 0);
    assert text[..|pre|] == pre && text[|pre| + 3..] == id;
  }

  lemma ParseTrimsFirst(h: string, id: string)
    requires h != "" && Trimmed(h) && HasPrefix(h, "ns=")
    ensures Parse(h + id) == ParseTrimmed(h + TrimRight(id))
  {
    TrimOfConcat(h, id);
    assert (h + TrimRight(id))[0..3] == h[0..3];
  }

  lemma ShadowIgnoresTrailingSpace(k: Kind, id: string)
    ensures Shadowed(k, TrimRight(id)) <==> Shadowed(k, id)
  {
    forall j | 0 <= j < Rank(k)
      ensures Contains(TrimRight(id), KINDS[j].Sep()) <==> Contains(id, KINDS[j].Sep())
    {
      VisibleAsciiIsNotSpace('=');
      TrimKeepsSeparators(id, KINDS[j].Sep());
    }
  }

  /** What the parser makes of any printed text: an error, or the node with a trimmed identifier. */
  lemma ParseOfPrinted(ns: nat, k: Kind, id: string)
    requires ns < NAMESPACES
    ensures Parse(Header(ns, k) + id) ==
            if TrimSpace(id) == "" || Shadowed(k, id) then Err
            else if k == NumericKind && ParseUint(TrimSpace(id), NUMERIC_IDS).None? then Err
            else Ok(Parsed(ns, "", k, TrimSpace(id)))
  {
    HeaderIsTrimmed(ns, k);
    ParseTrimsFirst(Header(ns, k), id);
    TrimRightIdempotent(id);
    ParseOfTrimmedHeader(ns, k, TrimRight(id));
    TrimCommutes(id);
    ShadowIgnoresTrailingSpace(k, id);
  }

  /** A namespace given by URI is returned as it is written, with index 0. */
  lemma UriFormParses(uri: string, k: Kind, id: string)
    requires uri != "" && Trimmed(uri) && NoSeparators("nsu=" + uri)
    requires id != "" && Trimmed(id) && !Shadowed(k, id)
    requires k == NumericKind ==> ParseUint(id, NUMERIC_IDS).Some?
    ensures Parse("nsu=" + uri + k.Sep() + id) == Ok(Parsed(0, uri, k, id))
  {
    var pre := "nsu=" + uri;
    UriTextIsFixed(uri, k, id);
    UnshadowedHead(pre, k, id);
    UriNamespace(uri, k, id);
    FixedIffTrimmed(id);
  }

  lemma UriTextIsFixed(uri: string, k: Kind, id: string)
    requires uri != "" && Trimmed(uri) && id != "" && Trimmed(id)
    ensures Parse("nsu=" + uri + k.Sep() + id) == ParseTrimmed("nsu=" + uri + k.Sep() + id)
    ensures TrimSpace("nsu=" + uri) == "nsu=" + uri
  {
    var pre := "nsu=" + uri;
    var text := pre + k.Sep() + id;
    VisibleAsciiIsNotSpace('n');
    assert pre[0] == 'n' && pre[|pre| - 1] == uri[|uri| - 1];
    FixedIffTrimmed(pre);
    assert text[0] == 'n' && text[|text| - 1] == id[|id| - 1];
    assert text[0..4] == "nsu=";
    UriParsesAsIs(text);
  }

  lemma UriParsesAsIs(text: string)
    requires text != "" && Trimmed(text) && HasPrefix(text, "nsu=")
    ensures Parse(text) == ParseTrimmed(text)
  {
    FixedIffTrimmed(text);
  }

  lemma UriNamespace(uri: string, k: Kind, id: string)
    requires uri != "" && Trimmed(uri)
    ensures Namespace("nsu=" + uri, k, id) == Ok(Parsed(0, uri, k, id))
  {
    var pre := "nsu=" + uri;
    assert pre[0..3][2] == 'u' && pre[0..4] == "nsu=" && pre[4..] == uri;
    FixedIffTrimmed(uri);
  }

  /** The short form without a namespace means namespace 0. */
  lemma ShorthandIsNamespaceZero(k: Kind, id: string)
    ensures Parse([k.Letter(), '='] + id) == Parse(Header(0, k) + id)
  {
    var h := [k.Letter(), '='];
    VisibleAsciiIsNotSpace(k.Letter());
    VisibleAsciiIsNotSpace('=');
    TrimOfConcat(h, id);
    HeaderIsTrimmed(0, k);
    ParseTrimsFirst(Header(0, k), id);
    ExpandsShorthand(k, TrimRight(id));
  }

  lemma ExpandsShorthand(k: Kind, id: string)
    ensures Expand([k.Letter(), '='] + id) == Header(0, k) + id
  {
    var raw := [k.Letter(), '='] + id;
    assert raw[0..2] == [k.Letter(), '='];
    LettersAreNoNamespace(raw);
    assert Decimal(0) == "0";
    assert Header(0, k) + id == "ns=0;" + raw;
  }

  lemma LettersAreNoNamespace(raw: string)
    requires raw != "" && raw[0] != 'n'
    ensures !HasPrefix(raw, "ns=") && !HasPrefix(raw, "nsu=")
  {
    if |raw| >= 3 { assert raw[0..3][0] == raw[0]; }
    if |raw| >= 4 { assert raw[0..4][0] == raw[0]; }
  }

  lemma TrimRightIdempotent(s: string)
    ensures TrimRight(TrimRight(s)) == TrimRight(s)
  {
  }

  /**
   Printing and parsing returns the node exactly when its identifier is non-empty, has no
   white space at either end, and does not contain the separator of an earlier kind.
   Numbers always come back.
   */
  lemma RoundTrip(n: Node)
    requires Wellformed(n)
    ensures n.Numeric? ==> Parse(Format(n)) == Ok(Parsed(n.ns, "", NumericKind, Decimal(n.number)))
    ensures n.Named? ==>
      (Parse(Format(n)) == Ok(Parsed(n.ns, "", n.kind, n.id)) <==>
       n.id != "" && Trimmed(n.id) && !Shadowed(n.kind, n.id))
  {
    if n.Numeric? {
      ValueOfDecimal(n.number);
      NumbersComeBack(n.ns, Decimal(n.number));
    } else {
      FixedIffTrimmed(n.id);
      ParseOfPrinted(n.ns, n.kind, n.id);
    }
  }

  lemma NumbersComeBack(ns: nat, id: string)
    requires ns < NAMESPACES && id != "" && ParseUint(id, NUMERIC_IDS).Some?
    ensures Parse(Header(ns, NumericKind) + id) == Ok(Parsed(ns, "", NumericKind, id))
  {
    assert TrimSpace(id) == id by {
      DigitsAreNotSpace(id);
      FixedIffTrimmed(id);
    }
    ParseOfPrinted(ns, NumericKind, id);
  }

  /** Resolving a printed identifier reaches the printed node: numbers always, unambiguous strings, nothing else. */
  lemma PrintedNodesResolve(n: Node, lookup: string -> Option<nat>)
    requires Wellformed(n)
    ensures Parse(Format(n)).Ok? && Resolve(Parse(Format(n)).value, lookup) == Ok(n) <==>
            n.Numeric? || (n.kind == StringKind && n.id != "" && Trimmed(n.id) && !Contains(n.id, ";i="))
  {
    RoundTrip(n);
    ResolveUndoes(n, Parse(Format(n)), lookup);
    if n.Named? {
      PrintedNamesKeepTheirKind(n.ns, n.kind, n.id);
      OnlyNumbersShadowStrings(n.id);
    }
  }

  lemma ResolveUndoes(n: Node, p: Result<Parsed>, lookup: string -> Option<nat>)
    requires Wellformed(n)
    requires n.Numeric? ==> p == Ok(Parsed(n.ns, "", NumericKind, Decimal(n.number)))
    ensures n.Numeric? ==> Resolve(p.value, lookup) == Ok(n)
    ensures n.Named? && p.Ok? && p.value.uri == "" && p.value.ns == n.ns && p.value.kind == n.kind ==>
      (Resolve(p.value, lookup) == Ok(n) <==> n.kind == StringKind && p.value.id == n.id)
  {
    if n.Numeric? {
      ValueOfDecimal(n.number);
    }
  }

  lemma PrintedNamesKeepTheirKind(ns: nat, k: Kind, id: string)
    requires ns < NAMESPACES
    ensures Parse(Header(ns, k) + id).Ok? ==> Parse(Header(ns, k) + id).value == Parsed(ns, "", k, TrimSpace(id))
  {
    ParseOfPrinted(ns, k, id);
  }

  lemma OnlyNumbersShadowStrings(id: string)
    ensures Shadowed(StringKind, id) <==> Contains(id, ";i=")
  {
    assert KINDS[0].Sep() == ";i=";
  }

  /** Everything accepted is fit to print: printed again with its index, it parses to itself. */
  lemma AcceptedTextsAreStable(raw: string)
    ensures Parse(raw).Ok? ==>
            var p := Parse(raw).value;
            p.id != "" && Trimmed(p.id) && !Shadowed(p.kind, p.id) && p.ns < NAMESPACES
            && (p.kind == NumericKind ==> ParseUint(p.id, NUMERIC_IDS).Some?)
            && Parse(Header(p.ns, p.kind) + p.id) == Ok(p.(uri := ""))
  {
    if Parse(raw).Ok? {
      var p := Parse(raw).value;
      AcceptedShape(Expand(TrimSpace(raw)));
      FixedIffTrimmed(p.id);
      ParseOfPrinted(p.ns, p.kind, p.id);
    }
  }

  lemma AcceptedShape(text: string)
    ensures ParseTrimmed(text).Ok? ==>
      var p := ParseTrimmed(text).value;
      p.id != "" && Trimmed(p.id) && p.ns < NAMESPACES && !Shadowed(p.kind, p.id)
      && (p.kind == NumericKind ==> ParseUint(p.id, NUMERIC_IDS).Some?)
  {
    if ParseTrimmed(text).Ok? {
      var (at, kind) := FindIdentSep(text).value;
      var rest := text[at + 3..];
      AssembledShape(TrimSpace(text[..at]), kind, TrimSpace(rest));
      FixedIffTrimmed(rest);
      FirstKindIsUnshadowed(text, at + 3);
    }
  }

  lemma FirstKindIsUnshadowed(text: string, skip: nat)
    requires FindIdentSep(text).Some? && skip <= |text|
    ensures !Shadowed(FindIdentSep(text).value.1, TrimSpace(text[skip..]))
  {
    FirstKindWins(text, 0);
    ShadowsAreInTheText(text, skip, FindIdentSep(text).value.1);
  }

  lemma AssembledShape(prefix: string, kind: Kind, id: string)
    requires Assemble(prefix, kind, id).Ok?
    ensures var p := Assemble(prefix, kind, id).value;
            p.kind == kind && p.id == id && id != "" && p.ns < NAMESPACES
            && (kind == NumericKind ==> ParseUint(id, NUMERIC_IDS).Some?)
  {
  }

  lemma ShadowsAreInTheText(text: string, skip: nat, kind: Kind)
    requires skip <= |text|
    requires forall j | 0 <= j < Rank(kind) :: !Contains(text, KINDS[j].Sep())
    ensures !Shadowed(kind, TrimSpace(text[skip..]))
  {
    if Shadowed(kind, TrimSpace(text[skip..])) {
      var j :| 0 <= j < Rank(kind) && Contains(TrimSpace(text[skip..]), KINDS[j].Sep());
      PartsContain(text, skip, KINDS[j].Sep());
    }
  }

  /** The separator found is the first occurrence of its kind, and no kind looked for before it occurs at all. */
  lemma {:induction false} FirstKindWins(raw: string, from: nat)
    requires from <= 4
    ensures match FindIdentSep(raw, from)
            case None => forall j | from <= j < 4 :: !Contains(raw, KINDS[j].Sep())
            case Some((at, kind)) =>
              && OccursAt(raw, kind.Sep(), at) && from <= Rank(kind)
              && (forall i: nat | i < at :: !OccursAt(raw, kind.Sep(), i))
              && forall j | from <= j < Rank(kind) :: !Contains(raw, KINDS[j].Sep())
    decreases 4 - from
  {
    if from < 4 {
      var i := Index(raw, KINDS[from].Sep());
      if i.None? {
        FirstKindWins(raw, from + 1);
      }
    }
  }

  lemma PartsContain(s: string, skip: nat, sep: string)
    requires skip <= |s| && Contains(TrimSpace(s[skip..]), sep)
    ensures Contains(s, sep)
  {
    var r := s[skip..];
    var lo := TrimIsSlice(r);
    SliceOccurrences(r, lo, TrimSpace(r), sep);
    SliceOccurrences(s, skip, r, sep);
  }

  lemma TrimIsSlice(s: string) returns (lo: nat)
    ensures lo + |TrimSpace(s)| <= |s| && s[lo..lo + |TrimSpace(s)|] == TrimSpace(s)
  {
    var l := TrimLeft(s);
    lo := |s| - |l|;
    assert l == s[lo..];
    assert TrimRight(l) == l[..|TrimRight(l)|];
  }
}
