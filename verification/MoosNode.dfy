/** MOOS variables over the publish/subscribe transport, and the cache of their newest values. */
module MoosNode {
  import opened Text
  import opened ZeroMqPacket

  const PREFIX := "CMOOSMsg/"

  datatype Msg = Msg(key: string, value: string)

  /** The identifier under which a variable is sent. */
  function Identifier(key: string): string {
    PREFIX + key + [SLASH]
  }

  /** The identifier subscribed to for a full name, or for a partial name with a trailing star. */
  function Subscribed(name: string): string {
    var t := Trim(name);
    if t == "" then PREFIX
    else if t[|t| - 1] == '*' then PREFIX + t[..|t| - 1]
    else PREFIX + t + [SLASH]
  }

  /** The variables that a name stands for. */
  predicate Selects(name: string, key: string) {
    var t := Trim(name);
    t == "" || (if t[|t| - 1] == '*' then t[..|t| - 1] <= key else t == key)
  }

  // ---- The subscription filter ----

  lemma PrefixOfBoth(p: string, a: string, b: string)
    ensures p + a <= p + b <==> a <= b
  {
    assert (p + a)[|p|..] == a && (p + b)[|p|..] == b;
    if a <= b {
      assert p + b == p + a + b[|a|..];
    }
    if p + a <= p + b {
      assert (p + b)[..|p + a|][|p|..] == b[..|a|];
    }
  }

  /** A string starts another one with a slash added iff it starts that one or is all of it. */
  lemma PrefixOfTerminated(a: string, b: string)
    ensures a <= b + [SLASH] <==> a <= b || a == b + [SLASH]
  {
    var t := b + [SLASH];
    if a <= t && |a| <= |b| {
      assert b == t[..|b|] && a == t[..|a|] == b[..|a|];
    }
    if a <= b {
      assert t == a + (b[|a|..] + [SLASH]);
    }
  }

  /** Exactly what a subscription lets through, whatever slashes the names contain. */
  lemma FilterMatches(name: string, key: string)
    ensures var t := Trim(name);
      Subscribed(name) <= Identifier(key) <==>
        (t == ""
         || (if t[|t| - 1] == '*' then t[..|t| - 1] <= key || t[..|t| - 1] == key + [SLASH]
             else t == key || t + [SLASH] <= key))
  {
    var t := Trim(name);
    assert Identifier(key) == PREFIX + (key + [SLASH]);
    if t == "" {
      assert Identifier(key)[..|PREFIX|] == PREFIX;
    } else if t[|t| - 1] == '*' {
      PrefixOfBoth(PREFIX, t[..|t| - 1], key + [SLASH]);
      PrefixOfTerminated(t[..|t| - 1], key);
    } else {
      assert Subscribed(name) == PREFIX + (t + [SLASH]);
      PrefixOfBoth(PREFIX, t + [SLASH], key + [SLASH]);
      PrefixOfTerminated(t + [SLASH], key);
      if t + [SLASH] == key + [SLASH] {
        assert t == (t + [SLASH])[..|t|] == key;
      }
    }
  }

  /** A slash in the name or the key makes the filter reach beyond what the name stands for. */
  predicate Overreaches(name: string, key: string) {
    var t := Trim(name);
    t != "" && (if t[|t| - 1] == '*' then t[..|t| - 1] == key + [SLASH] else t + [SLASH] <= key)
  }

  /**
   A subscription is right about a variable exactly when it does not overreach; then it lets
   through what its name stands for.
   */
  lemma SubscriptionIsExactIff(name: string, key: string)
    ensures (Subscribed(name) <= Identifier(key) <==> Selects(name, key)) <==> !Overreaches(name, key)
    ensures Selects(name, key) ==> Subscribed(name) <= Identifier(key)
  {
    FilterMatches(name, key);
  }

  /** Without slashes in names and keys that is always so. */
  lemma SlashFreeIsExact(name: string, key: string)
    requires SLASH !in key && SLASH !in Trim(name)
    ensures Subscribed(name) <= Identifier(key) <==> Selects(name, key)
  {
    var t := Trim(name);
    SubscriptionIsExactIff(name, key);
    assert (key + [SLASH])[|key|] == SLASH && (t + [SLASH])[|t|] == SLASH;
  }

  /** A slash in a key makes a full name match more than itself. */
  lemma SlashedKeyLeaks()
    ensures Subscribed("A") <= Identifier("A/B") && !Selects("A", "A/B")
  {
    assert Trim("A") == "A";
    FilterMatches("A", "A/B");
    assert "A" + [SLASH] <= "A/B";
  }

  /**
   A packet sent for a variable reaches the subscriber of a name exactly when the name stands
   for the variable or overreaches to it.
   */
  lemma PacketReachesSubscriber(name: string, key: string, body: string)
    requires NUL !in Trim(name)
    ensures Delivered(Filter(MARSHALLING_MOOS, Subscribed(name)), Encode(MARSHALLING_MOOS, Identifier(key), body))
       <==> Selects(name, key) || Overreaches(name, key)
  {
    assert NUL !in Subscribed(name);
    FilterIsExact(MARSHALLING_MOOS, Subscribed(name), MARSHALLING_MOOS, Identifier(key), body);
    SubscriptionIsExactIff(name, key);
  }

  // ---- The order of keys in the cache ----

  predicate Less(a: string, b: string) {
    b != "" && (a == "" || a[0] < b[0] || (a[0] == b[0] && Less(a[1..], b[1..])))
  }

  lemma {:induction false} LessIsTotal(a: string, b: string)
    ensures a == b || Less(a, b) || Less(b, a)
  {
    if a != "" && b != "" && a[0] == b[0] {
      LessIsTotal(a[1..], b[1..]);
      assert a == [a[0]] + a[1..] && b == [b[0]] + b[1..];
    }
  }

  lemma {:induction false} LessIsTransitive(a: string, b: string, c: string)
    requires Less(a, b) && Less(b, c)
    ensures Less(a, c)
  {
    if a != "" && a[0] == b[0] && b[0] == c[0] {
      LessIsTransitive(a[1..], b[1..], c[1..]);
    }
  }

  ghost predicate IsFirst(key: string, keys: set<string>) {
    key in keys && forall k | k in keys :: k == key || Less(key, k)
  }

  lemma {:induction false} HasFirst(keys: set<string>) returns (key: string)
    requires keys != {}
    ensures IsFirst(key, keys)
    decreases |keys|
  {
    key :| key in keys;
    var rest := keys - {key};
    if rest != {} {
      var k := HasFirst(rest);
      LessIsTotal(key, k);
      if Less(k, key) {
        key := k;
      } else {
        forall x | x in rest && x != k
          ensures Less(key, x)
        {
          LessIsTransitive(key, k, x);
        }
      }
    }
  }

  function Selected(vars: map<string, Msg>, name: string): set<string> {
    set k | k in vars && Selects(name, k)
  }

  function Prefixed(vars: map<string, Msg>, prefix: string): set<string> {
    set k | k in vars && prefix <= k
  }

  /** The messages are the newest values of the chosen variables, each once, in the order of their keys. */
  ghost predicate Lists(vars: map<string, Msg>, chosen: set<string>, keys: seq<string>, out: seq<Msg>) {
    && |out| == |keys| && (forall i | 0 <= i < |keys| :: keys[i] in vars && out[i] == vars[keys[i]])
    && (forall i, j | 0 <= i < j < |keys| :: Less(keys[i], keys[j]))
    && (forall k :: k in keys <==> k in chosen)
  }

  lemma ListsOneMore(vars: map<string, Msg>, chosen: set<string>, keys: seq<string>, out: seq<Msg>, key: string)
    requires Lists(vars, chosen, keys, out) && key in vars && forall k | k in chosen :: Less(k, key)
    ensures Lists(vars, chosen + {key}, keys + [key], out + [vars[key]])
  {
    assert forall i | 0 <= i < |keys| :: keys[i] in keys;
  }

  // ---- The cache ----

  class MoosNode {
    var newestVars: map<string, Msg>

    constructor ()
      ensures newestVars == map[]
    {
      newestVars := map[];
    }

    method Inbox(scheme: nat, msg: Msg)
      modifies this
      ensures newestVars == if scheme == MARSHALLING_MOOS then old(newestVars)[msg.key := msg] else old(newestVars)
    {
      if scheme == MARSHALLING_MOOS {
        newestVars := newestVars[msg.key := msg];
      }
    }

    /** Asking for a variable never seen makes an empty entry for it. */
    method Newest(key: string) returns (msg: Msg)
      modifies this
      ensures newestVars == if key in old(newestVars) then old(newestVars) else old(newestVars)[key := Msg("", "")]
      ensures msg == newestVars[key]
    {
      if key !in newestVars {
        newestVars := newestVars[key := Msg("", "")];
      }
      msg := newestVars[key];
    }

    /** The newest values of exactly the cached variables that a name stands for. */
    method NewestSubstr(name: string) returns (out: seq<Msg>)
      ensures exists keys: seq<string> :: Lists(newestVars, Selected(newestVars, name), keys, out)
    {
      var t := Trim(name);
      ghost var chosen := Selected(newestVars, name);
      if t != "" && t[|t| - 1] != '*' {
        if t in newestVars {
          assert chosen == {t} && Lists(newestVars, {t}, [t], [newestVars[t]]);
          return [newestVars[t]];
        }
        assert chosen == {} && Lists(newestVars, {}, [], []);
        return [];
      }
      var prefix := if t == "" then t else t[..|t| - 1];
      out := StartingWith(prefix);
      assert chosen == Prefixed(newestVars, prefix);
    }

    /** The loop over the cache, which is kept in the order of its keys. */
    method StartingWith(prefix: string) returns (out: seq<Msg>)
      ensures exists keys: seq<string> :: Lists(newestVars, Prefixed(newestVars, prefix), keys, out)
    {
      out := [];
      ghost var keys: seq<string>, chosen: set<string> := [], {};
      var left := newestVars.Keys;
      while left != {}
        invariant left <= newestVars.Keys
        invariant Lists(newestVars, chosen, keys, out)
        invariant forall k :: k in chosen <==> k in newestVars && k !in left && prefix <= k
        invariant forall c, k | c in chosen && k in left :: Less(c, k)
        decreases |left|
      {
        ghost var _ := HasFirst(left);
        var key :| key in left && forall k | k in left :: k == key || Less(key, k);
        left := left - {key};
        if prefix <= key {
          ListsOneMore(newestVars, chosen, keys, out, key);
          out, keys, chosen := out + [newestVars[key]], keys + [key], chosen + {key};
        }
      }
      assert chosen == Prefixed(newestVars, prefix);
    }
  }
}
