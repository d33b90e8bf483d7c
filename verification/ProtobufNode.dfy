/** Protobuf messages over the publish/subscribe transport, addressed by group and type name. */
module ProtobufNode {
  import opened Text
  import opened ZeroMqPacket

  datatype Address = BadIdentifier | Address(group: string, typeName: string)

  function MessageIdentifier(group: string, typeName: string): string {
    group + [SLASH] + typeName + [SLASH]
  }

  /** An empty type name subscribes to the whole group. */
  function SubscribedIdentifier(group: string, typeName: string): string {
    group + [SLASH] + typeName + (if typeName == "" then "" else [SLASH])
  }

  /**
   Splits at the first slash and drops the last character. Without a slash both parts are taken
   from the whole identifier; with nothing left to drop the node fails.
   */
  function SplitIdentifier(identifier: string): Address {
    var slash := Find(identifier, SLASH);
    FindIsFirst(identifier, SLASH);
    var typeName := if slash < |identifier| then identifier[slash + 1..] else identifier;
    if typeName == "" then BadIdentifier else Address(identifier[..slash], typeName[..|typeName| - 1])
  }

  /** What was sent is split back exactly when the group has no slash. */
  lemma SplitUndoesSendIff(group: string, typeName: string)
    ensures SplitIdentifier(MessageIdentifier(group, typeName)) == Address(group, typeName) <==> SLASH !in group
  {
    var id := MessageIdentifier(group, typeName);
    FindIsFirst(id, SLASH);
    assert id[|group|] == SLASH && SLASH in id;
    if SLASH !in group {
      assert id[..|group|] == group;
      FirstIsFound(id, SLASH, |group|);
      assert id[|group| + 1..] == typeName + [SLASH];
      assert (typeName + [SLASH])[..|typeName|] == typeName;
    }
  }

  /** Equal up to and including the first slash means equal before it. */
  lemma SlashSeparates(a: string, x: string, b: string, y: string)
    requires SLASH !in a && SLASH !in b && a + [SLASH] + x <= b + [SLASH] + y
    ensures a == b && x <= y
  {
    var s, t := a + [SLASH] + x, b + [SLASH] + y;
    assert s[..|a|] == a && t[..|b|] == b && s[|a|] == SLASH && t[|b|] == SLASH;
    FirstIsFound(s, SLASH, |a|);
    FirstIsFound(t, SLASH, |b|);
    assert t[..|a|] == a && t[|a|] == SLASH;
    FirstIsFound(t, SLASH, |a|);
    assert s[|a| + 1..] == x && t[|a| + 1..] == y;
    assert t[..|s|] == s && y[..|x|] == x;
  }

  /**
   With no slash in groups and type names, a subscription matches exactly its own group, and
   its own type if it names one.
   */
  lemma AddressIsExact(group: string, typeName: string, group': string, typeName': string)
    requires SLASH !in group && SLASH !in typeName && SLASH !in group' && SLASH !in typeName'
    ensures SubscribedIdentifier(group, typeName) <= MessageIdentifier(group', typeName')
       <==> group == group' && (typeName == "" || typeName == typeName')
  {
    var x := if typeName == "" then "" else typeName + [SLASH];
    var y := typeName' + [SLASH];
    assert SubscribedIdentifier(group, typeName) == group + [SLASH] + x;
    assert MessageIdentifier(group', typeName') == group' + [SLASH] + y;
    if SubscribedIdentifier(group, typeName) <= MessageIdentifier(group', typeName') {
      SlashSeparates(group, x, group', y);
      if typeName != "" {
        assert x == typeName + [SLASH] + "" && y == typeName' + [SLASH] + "";
        SlashSeparates(typeName, "", typeName', "");
      }
    }
    if group == group' && (typeName == "" || typeName == typeName') {
      var subscribed := SubscribedIdentifier(group, typeName);
      assert MessageIdentifier(group', typeName')[..|subscribed|] == subscribed;
    }
  }

  // ---- Handlers ----

  datatype Subscription = Subscription(typeName: string, group: string, handler: nat)

  predicate Wants(s: Subscription, typeName: string, group: string) {
    s.typeName == typeName && (s.group == "" || s.group == group)
  }

  /** The handlers that a message is posted to, in the order of registration. */
  function Posted(subscriptions: seq<Subscription>, typeName: string, group: string): (handlers: seq<nat>)
    ensures forall h :: h in handlers <==>
      exists i :: 0 <= i < |subscriptions| && subscriptions[i].handler == h && Wants(subscriptions[i], typeName, group)
  {
    if subscriptions == [] then []
    else
      var n := |subscriptions| - 1;
      var s := subscriptions[n];
      assert subscriptions == subscriptions[..n] + [s];
      Posted(subscriptions[..n], typeName, group) + (if Wants(s, typeName, group) then [s.handler] else [])
  }

  /** The filter that a subscription sets on the socket. */
  function OwnFilter(s: Subscription): string {
    Filter(MARSHALLING_PROTOBUF, SubscribedIdentifier(s.group, s.typeName))
  }

  /** The packet in which a message is sent. */
  function Packed(typeName: string, group: string, body: string): string {
    Encode(MARSHALLING_PROTOBUF, MessageIdentifier(group, typeName), body)
  }

  class StaticProtobufNode {
    var subscriptions: seq<Subscription>
    // the filters set on the socket
    var filters: seq<string>

    /** Every handler's filter is set. */
    ghost predicate Valid()
      reads this
    {
      forall i | 0 <= i < |subscriptions| :: OwnFilter(subscriptions[i]) in filters
    }

    /** The transport hands the packet to this node. */
    predicate Hears(raw: string)
      reads this
    {
      exists f | f in filters :: Delivered(f, raw)
    }

    constructor ()
      ensures subscriptions == [] && filters == [] && Valid()
    {
      subscriptions, filters := [], [];
    }

    method Subscribe(typeName: string, group: string, handler: nat)
      requires Valid()
      modifies this
      ensures subscriptions == old(subscriptions) + [Subscription(typeName, group, handler)]
      ensures filters == old(filters) + [OwnFilter(Subscription(typeName, group, handler))] && Valid()
    {
      subscriptions := subscriptions + [Subscription(typeName, group, handler)];
      filters := filters + [Filter(MARSHALLING_PROTOBUF, SubscribedIdentifier(group, typeName))];
    }

    method Inbox(typeName: string, group: string) returns (posted: seq<nat>)
      ensures posted == Posted(subscriptions, typeName, group)
    {
      posted := [];
      for i := 0 to |subscriptions|
        invariant posted == Posted(subscriptions[..i], typeName, group)
      {
        var s := subscriptions[i];
        assert subscriptions[..i + 1][..i] == subscriptions[..i];
        if s.typeName == typeName {
          if s.group == "" || s.group == group {
            posted := posted + [s.handler];
          }
        }
      }
      assert subscriptions[..|subscriptions|] == subscriptions;
    }

    /**
     From sender to handler: the packet of a message of a handler's own group and type reaches the
     node and is decoded; its identifier is split back into them, and the body is posted to the handler.
     */
    lemma SubscriberIsPosted(i: nat, body: string)
      requires Valid() && i < |subscriptions| && IsAddress(subscriptions[i]) && IsBytes(body)
      requires IsBytes(subscriptions[i].group) && IsBytes(subscriptions[i].typeName)
      ensures var s := subscriptions[i]; var raw := Packed(s.typeName, s.group, body);
        && Hears(raw) && IsBytes(raw)
        && var p := Decode(raw);
           && p.Packet? && p.scheme == MARSHALLING_PROTOBUF && p.body == body
           && var a := SplitIdentifier(p.identifier);
              a == Address(s.group, s.typeName) && s.handler in Posted(subscriptions, a.typeName, a.group)
    {
      var s := subscriptions[i];
      OwnFilterIsExact(s, s.typeName, s.group, body);
      PackedIsDecoded(s, body);
      SplitUndoesSendIff(s.group, s.typeName);
      assert Wants(s, s.typeName, s.group);
    }
  }

  /** A type and a group without the characters that structure identifiers and packets. */
  predicate IsAddress(s: Subscription) {
    SLASH !in s.group && SLASH !in s.typeName && NUL !in s.group && NUL !in s.typeName && s.typeName != ""
  }

  lemma PackedIsDecoded(s: Subscription, body: string)
    requires IsAddress(s) && IsBytes(s.group) && IsBytes(s.typeName) && IsBytes(body)
    ensures var raw, identifier := Packed(s.typeName, s.group, body), MessageIdentifier(s.group, s.typeName);
      IsBytes(raw) && Decode(raw) == Packet(MARSHALLING_PROTOBUF, identifier, body)
  {
    var identifier := MessageIdentifier(s.group, s.typeName);
    BytesOf(s.group, [SLASH]);
    BytesOf(s.group + [SLASH], s.typeName);
    BytesOf(s.group + [SLASH] + s.typeName, [SLASH]);
    RoundTripIff(MARSHALLING_PROTOBUF, identifier, body);
  }

  /** A handler's own filter lets through exactly the messages of its group and type. */
  lemma OwnFilterIsExact(s: Subscription, typeName: string, group: string, body: string)
    requires IsAddress(s) && SLASH !in group && SLASH !in typeName
    ensures Delivered(OwnFilter(s), Packed(typeName, group, body)) <==> s.group == group && s.typeName == typeName
  {
    assert NUL !in SubscribedIdentifier(s.group, s.typeName);
    FilterIsExact(MARSHALLING_PROTOBUF, SubscribedIdentifier(s.group, s.typeName),
                  MARSHALLING_PROTOBUF, MessageIdentifier(group, typeName), body);
    AddressIsExact(s.group, s.typeName, group, typeName);
  }
}
