/** The forms a node id takes as text, letter by letter, and what the driver makes of them. */
module NodeIdForms {
  import opened Wrappers
  import opened Text
  import opened NodeId

  /** How the browse code prints nodes. */
  lemma PrintedForms(ns: nat, number: nat, id: string)
    ensures Format(Numeric(ns, number)) == "ns=" + Decimal(ns) + ";i=" + Decimal(number)
    ensures Format(Named(ns, StringKind, id)) == "ns=" + Decimal(ns) + ";s=" + id
    ensures Format(Named(ns, GuidKind, id)) == "ns=" + Decimal(ns) + ";g=" + id
    ensures Format(Named(ns, OpaqueKind, id)) == "ns=" + Decimal(ns) + ";b=" + id
  {
  }

  /** The namespace part of a text: an index below 65536 in digits, or a URI that is not blank. */
  ghost predicate NamesNamespace(prefix: string, ns: nat, uri: string) {
    || (OccursAt(prefix, "ns=", 0) && prefix[3..] != "" && AllDigits(prefix[3..])
        && ns == Value(prefix[3..]) < 65536 && uri == "")
    || (OccursAt(prefix, "nsu=", 0) && uri == TrimSpace(prefix[4..]) && uri != "" && ns == 0)
  }

  /** The text without white space around it, in full: a text that starts with a kind is in namespace 0. */
  ghost predicate InFull(full: string, raw: string) {
    var text := TrimSpace(raw);
    full == if OccursAt(text, "i=", 0) || OccursAt(text, "s=", 0) || OccursAt(text, "g=", 0) || OccursAt(text, "b=", 0)
            then "ns=0;" + text else text
  }

  lemma NamespaceMeans(prefix: string, kind: Kind, id: string)
    ensures Namespace(prefix, kind, id).Ok? ==>
      var p := Namespace(prefix, kind, id).value; p.kind == kind && p.id == id && NamesNamespace(prefix, p.ns, p.uri)
    ensures Namespace(prefix, kind, id).Err? ==> forall ns, uri :: !NamesNamespace(prefix, ns, uri)
  {
    if OccursAt(prefix, "ns=", 0) { NotBoth(prefix); }
  }

  lemma NotBoth(s: string)
    requires OccursAt(s, "ns=", 0)
    ensures !OccursAt(s, "nsu=", 0)
  {
    assert s[2] == s[0..3][2] == '=';
    assert |s| >= 4 ==> s[0..4][2] == s[2];
  }

  lemma ExpandInFull(text: string)
    ensures Expand(text) ==
      if OccursAt(text, "i=", 0) || OccursAt(text, "s=", 0) || OccursAt(text, "g=", 0) || OccursAt(text, "b=", 0)
      then "ns=0;" + text else text
  {
    if OccursAt(text, "ns=", 0) { assert text[0..3][0] == 'n'; }
    if OccursAt(text, "nsu=", 0) { assert text[0..4][0] == 'n'; }
    if |text| >= 2 { assert text[0..2][0] == text[0]; }
  }

  lemma AssembleMeans(prefix: string, kind: Kind, id: string)
    requires Assemble(prefix, kind, id).Ok?
    ensures var p := Assemble(prefix, kind, id).value;
            && p.kind == kind && p.id == id && id != ""
            && (kind == NumericKind ==> AllDigits(id) && Value(id) < 0x1_0000_0000)
            && NamesNamespace(prefix, p.ns, p.uri)
  {
    NamespaceMeans(prefix, kind, id);
  }

  lemma SplitText(full: string) returns (at: nat, kind: Kind, prefix: string, id: string)
    requires ParseTrimmed(full).Ok?
    ensures at + 3 <= |full| && OccursAt(full, kind.Sep(), at)
    ensures prefix == TrimSpace(full[..at]) && id == TrimSpace(full[at + 3..])
    ensures ParseTrimmed(full) == Assemble(prefix, kind, id)
  {
    var sep := FindIdentSep(full).value;
    at, kind := sep.0, sep.1;
    prefix, id := TrimSpace(full[..at]), TrimSpace(full[at + 3..]);
  }

  /**
   Everything the parser accepts has a namespace and an identifier: some separator splits the full
   text into a namespace part, which gives index or URI, and the identifier, a number for a numeric
   kind.
   */
  lemma AcceptedTextsHaveNamespace(raw: string) returns (full: string, at: nat, kind: Kind, prefix: string, id: string)
    requires Parse(raw).Ok?
    ensures InFull(full, raw) && at + 3 <= |full| && OccursAt(full, kind.Sep(), at)
    ensures prefix == TrimSpace(full[..at]) && id == TrimSpace(full[at + 3..]) && id != ""
    ensures kind == NumericKind ==> AllDigits(id) && Value(id) < 0x1_0000_0000
    ensures var p := Parse(raw).value; p.kind == kind && p.id == id && NamesNamespace(prefix, p.ns, p.uri)
  {
    full := Expand(TrimSpace(raw));
    ExpandInFull(TrimSpace(raw));
    at, kind, prefix, id := SplitText(full);
    AssembleMeans(prefix, kind, id);
  }

  /** The driver looks a URI up, refuses one the server does not know, and supports numbers and strings. */
  lemma UriNodesResolve(uri: string, k: Kind, id: string, lookup: string -> Option<nat>)
    requires uri != "" && (k == NumericKind ==> ParseUint(id, NUMERIC_IDS).Some?)
    ensures Resolve(Parsed(0, uri, k, id), lookup) ==
            if lookup(uri).None? then Err
            else if k == NumericKind then Ok(Numeric(lookup(uri).value, Value(id)))
            else if k == StringKind then Ok(Named(lookup(uri).value, StringKind, id))
            else Err
  {
  }

  /** Which separators in an identifier mislead the parser: those of the kinds it looks for before. */
  lemma ShadowedMeans(id: string)
    ensures !Shadowed(NumericKind, id)
    ensures Shadowed(StringKind, id) <==> Contains(id, ";i=")
    ensures Shadowed(GuidKind, id) <==> Contains(id, ";i=") || Contains(id, ";s=")
    ensures Shadowed(OpaqueKind, id) <==> Contains(id, ";i=") || Contains(id, ";s=") || Contains(id, ";g=")
  {
    assert KINDS[0].Sep() == ";i=" && KINDS[1].Sep() == ";s=" && KINDS[2].Sep() == ";g=";
  }
}
