/** Resource identifiers of the form `namespaces/<namespace>/<kind>/<name>`. */
module Identifiers {
  import opened Options

  /** A namespaced object name. */
  datatype Key = Key(namespace: string, name: string)

  const PREFIX: string := "namespaces"

  datatype IdentifierError =
    | SegmentCount(count: nat)
    | FirstSegment(got: string)
    | KindSegment(got: string)

  predicate SlashFree(s: string) {
    '/' !in s
  }

  /** The pieces of `s` between slashes; there is always at least one. */
  function Split(s: string): (segments: seq<string>)
    ensures |segments| >= 1
  {
    if s == "" then [""]
    else
      var rest := Split(s[1..]);
      if s[0] == '/' then [""] + rest else [[s[0]] + rest[0]] + rest[1..]
  }

  function ParseNamespaceIdentifier(identifier: string): Result<string, IdentifierError> {
    var segments := Split(identifier);
    if |segments| != 2 then Err(SegmentCount(|segments|))
    else if segments[0] != PREFIX then Err(FirstSegment(segments[0]))
    else Ok(segments[1])
  }

  function ParseObjectIdentifier(identifier: string, kind: string): Result<Key, IdentifierError> {
    var segments := Split(identifier);
    if |segments| != 4 then Err(SegmentCount(|segments|))
    else if segments[0] != PREFIX then Err(FirstSegment(segments[0]))
    else if segments[2] != kind then Err(KindSegment(segments[2]))
    else Ok(Key(segments[1], segments[3]))
  }

  function UnparseObjectIdentifier(key: Key, kind: string): string {
    PREFIX + "/" + key.namespace + "/" + kind + "/" + key.name
  }

  // ---------------------------------------------------------------- splitting

  lemma {:induction false} SplitSlashFree(s: string)
    ensures |Split(s)| == 1 <==> SlashFree(s)
    ensures SlashFree(s) ==> Split(s) == [s]
  {
    if s != "" {
      SplitSlashFree(s[1..]);
      assert s == [s[0]] + s[1..];
    }
  }

  lemma {:induction false} SplitAtSlash(a: string, b: string)
    ensures Split(a + "/" + b) == Split(a) + Split(b)
  {
    if a == "" {
      assert (a + "/" + b)[1..] == b;
    } else {
      assert (a + "/" + b)[1..] == a[1..] + "/" + b;
      SplitAtSlash(a[1..], b);
    }
  }

  function Join(segments: seq<string>): string
    requires segments != []
  {
    if |segments| == 1 then segments[0] else segments[0] + "/" + Join(segments[1..])
  }

  lemma {:induction false} JoinSplit(s: string)
    ensures Join(Split(s)) == s
    ensures forall i | 0 <= i < |Split(s)| :: SlashFree(Split(s)[i])
  {
    if s != "" {
      JoinSplit(s[1..]);
      var rest := Split(s[1..]);
      if s[0] == '/' {
        assert ([""] + rest)[1..] == rest;
      } else {
        assert Split(s)[1..] == rest[1..];
      }
      assert s == [s[0]] + s[1..];
    }
  }

  lemma SplitFour(a: string, b: string, c: string, d: string)
    ensures Split(a + "/" + b + "/" + c + "/" + d) == Split(a) + Split(b) + Split(c) + Split(d)
  {
    SplitAtSlash(a, b);
    SplitAtSlash(a + "/" + b, c);
    SplitAtSlash(a + "/" + b + "/" + c, d);
  }

  lemma UnparseSegments(key: Key, kind: string)
    ensures Split(UnparseObjectIdentifier(key, kind))
         == [PREFIX] + Split(key.namespace) + Split(kind) + Split(key.name)
  {
    SplitFour(PREFIX, key.namespace, kind, key.name);
    SplitSlashFree(PREFIX);
  }

  // ---------------------------------------------------------------- round trips

  /** Parsing an unparsed key gives the key back exactly when no part contains a slash. */
  lemma ParseUnparsed(key: Key, kind: string)
    ensures ParseObjectIdentifier(UnparseObjectIdentifier(key, kind), kind) == Ok(key)
       <==> SlashFree(key.namespace) && SlashFree(kind) && SlashFree(key.name)
  {
    UnparseSegments(key, kind);
    SplitSlashFree(key.namespace);
    SplitSlashFree(kind);
    SplitSlashFree(key.name);
  }

  /** A string that parses is the unparsed form of the key it parses to, so two identifiers of one
      kind never name the same object. */
  lemma UnparseParsed(identifier: string, kind: string)
    requires ParseObjectIdentifier(identifier, kind).Ok?
    ensures UnparseObjectIdentifier(ParseObjectIdentifier(identifier, kind).value, kind) == identifier
  {
    JoinSplit(identifier);
    var s := Split(identifier);
    assert s[1..][1..] == s[2..] && s[2..][1..] == s[3..] && s[3..] == [s[3]];
    assert Join(s) == s[0] + "/" + Join(s[1..]);
    assert Join(s[1..]) == s[1] + "/" + Join(s[2..]);
    assert Join(s[2..]) == s[2] + "/" + Join(s[3..]);
    var key := Key(s[1], s[3]);
    assert identifier == PREFIX + ("/" + (key.namespace + ("/" + (kind + ("/" + key.name)))));
  }

  function UnparseNamespaceIdentifier(namespace: string): string {
    PREFIX + "/" + namespace
  }

  /** Parsing an unparsed namespace gives it back exactly when it contains no slash. */
  lemma NamespaceRoundTrip(namespace: string)
    ensures ParseNamespaceIdentifier(UnparseNamespaceIdentifier(namespace)) == Ok(namespace) <==> SlashFree(namespace)
  {
    SplitSlashFree(PREFIX);
    SplitSlashFree(namespace);
    SplitAtSlash(PREFIX, namespace);
  }

  /** And a string that parses is the unparsed form of the namespace it parses to. */
  lemma NamespaceUnparseParsed(identifier: string)
    requires ParseNamespaceIdentifier(identifier).Ok?
    ensures UnparseNamespaceIdentifier(ParseNamespaceIdentifier(identifier).value) == identifier
  {
    JoinTwo(identifier);
  }

  lemma JoinTwo(identifier: string)
    requires |Split(identifier)| == 2
    ensures Split(identifier)[0] + "/" + Split(identifier)[1] == identifier
  {
    JoinSplit(identifier);
    var s := Split(identifier);
    assert s[1..] == [s[1]];
  }

  /** No string is an identifier of both sorts, nor of objects of two kinds. */
  lemma IdentifiersNeverConfused(identifier: string, kind: string, other: string)
    requires ParseObjectIdentifier(identifier, kind).Ok?
    ensures ParseNamespaceIdentifier(identifier).Err?
    ensures ParseObjectIdentifier(identifier, other).Ok? <==> other == kind
  {
  }

  /** The identifiers that parse, written out: `namespaces`, a namespace, the kind and a name, without further
      slashes. */
  lemma ObjectIdentifierWrittenOut(identifier: string, kind: string, key: Key)
    requires SlashFree(kind)
    ensures ParseObjectIdentifier(identifier, kind) == Ok(key)
       <==> && identifier == "namespaces" + "/" + key.namespace + "/" + kind + "/" + key.name
            && SlashFree(key.namespace) && SlashFree(key.name)
  {
    if ParseObjectIdentifier(identifier, kind) == Ok(key) {
      UnparseParsed(identifier, kind);
      JoinSplit(identifier);
    } else if identifier == "namespaces" + "/" + key.namespace + "/" + kind + "/" + key.name {
      ParseUnparsed(key, kind);
      assert UnparseObjectIdentifier(key, kind) == identifier;
    }
  }

  /** Why an object identifier does not parse. */
  lemma ParseFailsExactlyWhen(identifier: string, kind: string)
    ensures var segments, parsed := Split(identifier), ParseObjectIdentifier(identifier, kind);
            parsed.Err? ==>
              match parsed.error
              case SegmentCount(n) => n == |segments| != 4
              case FirstSegment(got) => |segments| == 4 && got == segments[0] != "namespaces"
              case KindSegment(got) => |segments| == 4 && segments[0] == "namespaces" && got == segments[2] != kind
  {
  }
}
