/** Message-registry lookup over a response body's `@Message.ExtendedInfo`
    list: `findMessageId` and `isPasswordExpired` (src/store/api.js:95-120).
    A `MessageId` has the form `<Registry>.<version segments>.<Key>`; an entry
    matches when its first `.`-segment is the registry name and its last one is
    the key, whatever lies in between. */
module MessageRegistry {
  import opened Js

  /** One entry of `@Message.ExtendedInfo`. `messageId` is `None` when the
      object has no `MessageId` property; `properties` stands for the rest of
      the object (`Message`, `Severity`, `Resolution`, ...), which the lookup
      returns but never reads. */
  datatype Message = Message(messageId: Option<string>, properties: map<string, string>)

  /** A response body that is an object; `extendedInfo` is its
      `@Message.ExtendedInfo` property, `None` when absent. A body that is
      `undefined`, `null` or not an object is `None` at the `Option<Body>`
      level or a `Body(None)`: optional chaining reads `undefined` either way. */
  datatype Body = Body(extendedInfo: Option<seq<Message>>)

  /** The registry used when the caller passes none. */
  const DefaultRegistry: string := "Base"

  /** The key `isPasswordExpired` looks for. */
  const PasswordChangeRequired: string := "PasswordChangeRequired"

  /** The value the `registry = 'Base'` default parameter takes. */
  function RegistryName(registry: Option<string>): (name: string)
    ensures registry.None? ==> name == "Base"
    ensures registry.Some? ==> name == registry.value
  {
    match registry
    case None => DefaultRegistry
    case Some(name) => name
  }

  /** The messages the lookup scans: `@Message.ExtendedInfo`, or nothing when
      the body or the property is absent. */
  function Messages(data: Option<Body>): (msgs: seq<Message>)
    ensures data.None? || data.value.extendedInfo.None? ==> msgs == []
    ensures data.Some? && data.value.extendedInfo.Some? ==> msgs == data.value.extendedInfo.value
  {
    match data
    case None => []
    case Some(body) =>
      match body.extendedInfo
      case None => []
      case Some(msgs) => msgs
  }

  /** The comparison inside the `find` callback: last segment equals `key`
      and first segment equals `registry`. */
  predicate IdMatches(id: string, key: string, registry: string)
    ensures IdMatches(id, key, registry) ==> '.' !in key && '.' !in registry
  {
    var words := Split(id, '.');
    words[|words| - 1] == key && words[0] == registry
  }

  /** `m` is a message the callback accepts. */
  predicate Matches(m: Message, key: string, registry: string)
  {
    m.messageId.Some? && IdMatches(m.messageId.value, key, registry)
  }

  /** `find` inspects `m` and moves on: it has a `MessageId` that does not match. */
  predicate Passes(m: Message, key: string, registry: string)
  {
    m.messageId.Some? && !IdMatches(m.messageId.value, key, registry)
  }

  /** `find` moved past every one of the first `n` messages. */
  predicate PassedBefore(msgs: seq<Message>, n: nat, key: string, registry: string)
    requires n <= |msgs|
  {
    forall j :: 0 <= j < n ==> Passes(msgs[j], key, registry)
  }

  /** Where `Array.prototype.find` stops: at the index of the first match, at
      the index of a message whose missing `MessageId` makes the callback
      throw, or past the end. */
  datatype Stop = Hit(index: nat) | Fault(index: nat) | Miss

  /** The scan `extInfoMsgs.find(...)` performs, in sequence order. */
  function Scan(msgs: seq<Message>, key: string, registry: string): (r: Stop)
    ensures r.Hit? ==> r.index < |msgs| && Matches(msgs[r.index], key, registry)
                       && PassedBefore(msgs, r.index, key, registry)
    ensures r.Fault? ==> r.index < |msgs| && msgs[r.index].messageId.None?
                         && PassedBefore(msgs, r.index, key, registry)
    ensures r.Miss? <==> PassedBefore(msgs, |msgs|, key, registry)
    decreases |msgs|
  {
    if |msgs| == 0 then Miss
    else if msgs[0].messageId.None? then Fault(0)
    else if IdMatches(msgs[0].messageId.value, key, registry) then Hit(0)
    else
      match Scan(msgs[1..], key, registry)
      case Hit(i) => Hit(i + 1)
      case Fault(i) => Fault(i + 1)
      case Miss => Miss
  }

  /** `findMessageId(data, key, registry)`: the first message of
      `@Message.ExtendedInfo` whose `MessageId` starts with the registry name
      and ends with `key`, `None` (`undefined`) when there is none or the
      property is absent; it throws when the scan reaches a message without
      a `MessageId` before finding a match. */
  function FindMessageId(data: Option<Body>, key: string, registry: Option<string>): (r: Outcome<Option<Message>>)
    ensures Messages(data) == [] ==> r == Returned(None)
    ensures r.Returned? && r.value.Some? ==>
              exists i :: 0 <= i < |Messages(data)| && Messages(data)[i] == r.value.value
                          && Matches(Messages(data)[i], key, RegistryName(registry))
                          && PassedBefore(Messages(data), i, key, RegistryName(registry))
    ensures r == Returned(None) <==> PassedBefore(Messages(data), |Messages(data)|, key, RegistryName(registry))
    ensures r.Threw? <==>
              exists i :: 0 <= i < |Messages(data)| && Messages(data)[i].messageId.None?
                          && PassedBefore(Messages(data), i, key, RegistryName(registry))
  {
    var msgs := Messages(data);
    match Scan(msgs, key, RegistryName(registry))
    case Hit(i) => Returned(Some(msgs[i]))
    case Fault(i) => Threw(TypeError)
    case Miss => Returned(None)
  }

  /** `isPasswordExpired(data)`: `!!findMessageId(data, 'PasswordChangeRequired')`.
      A found message is an object, hence truthy; `undefined` is falsy. */
  function IsPasswordExpired(data: Option<Body>): (r: Outcome<bool>)
    ensures r == Returned(true) <==>
              var f := FindMessageId(data, PasswordChangeRequired, Some(DefaultRegistry));
              f.Returned? && f.value.Some?
    ensures r == Returned(false) <==> FindMessageId(data, PasswordChangeRequired, Some(DefaultRegistry)) == Returned(None)
    ensures r.Threw? <==> FindMessageId(data, PasswordChangeRequired, Some(DefaultRegistry)).Threw?
  {
    match FindMessageId(data, PasswordChangeRequired, None)
    case Threw(e) => Threw(e)
    case Returned(found) => Returned(found.Some?)
  }

  /** A message at index `i` that matches, with every earlier message passed
      over, is exactly what the lookup returns. */
  lemma FindMessageIdReturnsFirst(data: Option<Body>, key: string, registry: Option<string>, i: nat)
    requires i < |Messages(data)|
    requires Matches(Messages(data)[i], key, RegistryName(registry))
    requires PassedBefore(Messages(data), i, key, RegistryName(registry))
    ensures FindMessageId(data, key, registry) == Returned(Some(Messages(data)[i]))
  {
  }

  /** When every message carries a `MessageId`, as a Redfish message must, the
      lookup never throws. */
  lemma FindMessageIdTotalOnIdentifiedMessages(data: Option<Body>, key: string, registry: Option<string>)
    requires forall j :: 0 <= j < |Messages(data)| ==> Messages(data)[j].messageId.Some?
    ensures FindMessageId(data, key, registry).Returned?
  {
  }

  /** Segment comparison in terms of the `MessageId` string itself: for a
      registry name and a key without dots, an id matches exactly when it
      starts with `<registry>.` and ends with `.<key>`, or when it is a single
      segment equal to both. */
  lemma {:induction false} IdMatchesIff(id: string, key: string, registry: string)
    requires '.' !in key && '.' !in registry
    ensures IdMatches(id, key, registry) <==>
              (id == registry && id == key) || (registry + "." <= id && EndsWith(id, "." + key))
  {
    var words := Split(id, '.');
    SplitFirst(id, '.');
    SplitLast(id, '.');
    if registry + "." <= id && EndsWith(id, "." + key) {
      var tail := id[|registry| + 1..];
      assert id == registry + ['.'] + tail;
      SplitConcat(registry, tail, '.');
      SplitWithoutSeparator(registry, '.');
      assert words[0] == registry;
      var head := id[..|id| - |key| - 1];
      assert id == head + ['.'] + key;
      SplitConcat(head, key, '.');
      SplitWithoutSeparator(key, '.');
      assert words[|words| - 1] == key;
    }
    if id == registry && id == key {
      SplitWithoutSeparator(id, '.');
    }
    if IdMatches(id, key, registry) {
      if |words| == 1 {
        assert id == registry && id == key;
      } else {
        assert registry + "." == words[0] + ['.'];
        assert "." + key == ['.'] + words[|words| - 1];
        assert registry + "." <= id && EndsWith(id, "." + key);
      }
    }
  }

  /** Version segments between the registry and the key are ignored: any
      string at all may stand between them. */
  lemma VersionSegmentsIgnored(registry: string, version: string, key: string)
    requires '.' !in key && '.' !in registry
    ensures IdMatches(registry + "." + version + "." + key, key, registry)
    ensures IdMatches(registry + "." + key, key, registry)
  {
    var id := registry + "." + version + "." + key;
    IdMatchesIff(id, key, registry);
    assert id == (registry + ".") + (version + "." + key);
    assert id[|id| - |"." + key|..] == "." + key;
    var short := registry + "." + key;
    IdMatchesIff(short, key, registry);
    assert short[|short| - |"." + key|..] == "." + key;
  }

  /** A different registry prefix never matches, whatever follows it. */
  lemma {:induction false} OtherRegistryNeverMatches(other: string, rest: string, key: string, registry: string)
    requires '.' !in other && other != registry
    ensures !IdMatches(other + "." + rest, key, registry)
  {
    SplitConcat(other, rest, '.');
    SplitWithoutSeparator(other, '.');
  }

  /** A key or registry name containing a dot never matches: segments are
      dot-free. */
  lemma DottedNamesNeverMatch(id: string, key: string, registry: string)
    requires '.' in key || '.' in registry
    ensures !IdMatches(id, key, registry)
  {
  }

  /** The lookup with the default registry is the lookup with `"Base"`. */
  lemma DefaultRegistryIsBase(data: Option<Body>, key: string)
    ensures FindMessageId(data, key, None) == FindMessageId(data, key, Some("Base"))
  {
  }

  /** `Base.1.0.Foo` and `Base.1.0.0.Foo` match key `Foo` in registry `Base`;
      `Other.1.0.Foo` does not. */
  lemma RegistryExamples()
    ensures IdMatches("Base.1.0.Foo", "Foo", "Base")
    ensures IdMatches("Base.1.0.0.Foo", "Foo", "Base")
    ensures !IdMatches("Other.1.0.Foo", "Foo", "Base")
  {
    VersionSegmentsIgnored("Base", "1.0", "Foo");
    assert "Base" + "." + "1.0" + "." + "Foo" == "Base.1.0.Foo";
    VersionSegmentsIgnored("Base", "1.0.0", "Foo");
    assert "Base" + "." + "1.0.0" + "." + "Foo" == "Base.1.0.0.Foo";
    OtherRegistryNeverMatches("Other", "1.0.Foo", "Foo", "Base");
    assert "Other" + "." + "1.0.Foo" == "Other.1.0.Foo";
  }

  /** A body whose only message is `Base.<version>.PasswordChangeRequired`
      (`Base.v1_0_0.PasswordChangeRequired`, say) signals an expired password,
      whatever the version segments. */
  lemma PasswordExpiredExample(version: string, props: map<string, string>)
    ensures IsPasswordExpired(Some(Body(Some([Message(Some("Base." + version + ".PasswordChangeRequired"), props)])))) == Returned(true)
  {
    var id := "Base." + version + ".PasswordChangeRequired";
    VersionSegmentsIgnored("Base", version, PasswordChangeRequired);
    assert "Base" + "." + version + "." + PasswordChangeRequired == id;
    FindMessageIdReturnsFirst(Some(Body(Some([Message(Some(id), props)]))), PasswordChangeRequired, None, 0);
  }

  /** A body without `@Message.ExtendedInfo`, an absent body, and a body whose
      only message belongs to another registry do not signal it. */
  lemma PasswordNotExpiredExamples(rest: string, props: map<string, string>)
    ensures IsPasswordExpired(Some(Body(None))) == Returned(false)
    ensures IsPasswordExpired(None) == Returned(false)
    ensures IsPasswordExpired(Some(Body(Some([Message(Some("Other." + rest), props)])))) == Returned(false)
  {
    OtherRegistryNeverMatches("Other", rest, PasswordChangeRequired, "Base");
    assert "Other" + "." + rest == "Other." + rest;
  }
}
