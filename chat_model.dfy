/**
  The values the chat service stores, and the specification functions its
  operations are proved against: a lookup in the client table and the bag of
  display names that the table holds (one per identified client).
 */
module ChatModel {
  import opened Wrappers

  /** A chat message: the sender's display name, `None` when the sender never
      identified itself, and the message text. */
  datatype Message = Message(name: Option<string>, text: string)

  /** The payload of a "create message" request; only its text is used. */
  datatype CreateMessageDto = CreateMessageDto(text: string)

  /** The one message every fresh service starts with. */
  function SeedMessage(): (m: Message)
  {
    Message(Some("Ahmed"), "hey there!")
  }

  /** Reading `clientToUser[clientId]`: the bound name, or `None` (JavaScript's
      `undefined`) for a client that was never identified. */
  function Lookup(table: map<string, string>, clientId: string): (r: Option<string>)
  {
    if clientId in table then Some(table[clientId]) else None
  }

  /** The message `create` builds: the sender's current name and the text of
      the request. */
  function NewMessage(table: map<string, string>, dto: CreateMessageDto, clientId: string): (m: Message)
  {
    Message(Lookup(table, clientId), dto.text)
  }

  /** The values of a map with their multiplicity: one occurrence per key, so
      two clients sharing a name contribute that name twice. This is what
      `Object.values` returns, up to order. */
  ghost function ValueMultiset<K, V>(m: map<K, V>): multiset<V>
    decreases |m|
  {
    if m == map[] then multiset{}
    else
      var k :| k in m;
      assert |m - {k}| < |m| by { assert (m - {k}).Keys < m.Keys; }
      ValueMultiset(m - {k}) + multiset{m[k]}
  }

  /** The key the definition takes out first, with the unfolding it gives. */
  lemma FirstKey<K, V>(m: map<K, V>) returns (k: K)
    requires m != map[]
    ensures k in m && |m - {k}| < |m|
    ensures ValueMultiset(m) == ValueMultiset(m - {k}) + multiset{m[k]}
  {
    k :| k in m && ValueMultiset(m) == ValueMultiset(m - {k}) + multiset{m[k]};
    assert (m - {k}).Keys < m.Keys;
  }

  /** Taking out ANY key removes exactly that key's value, whichever key the
      definition happens to pick first. */
  lemma {:induction false} ValueMultisetRemove<K, V>(m: map<K, V>, k: K)
    requires k in m
    ensures ValueMultiset(m) == ValueMultiset(m - {k}) + multiset{m[k]}
    decreases |m|
  {
    var j := FirstKey(m);
    if j != k {
      var withoutJ, withoutK := m - {j}, m - {k};
      assert withoutK.Keys < m.Keys;
      var both := withoutJ - {k};
      assert both == withoutK - {j};
      ValueMultisetRemove(withoutJ, k);
      ValueMultisetRemove(withoutK, j);
      assert withoutJ[k] == m[k] && withoutK[j] == m[j];
    }
  }

  /** One value per key: the bag has exactly as many elements as the map. */
  lemma {:induction false} ValueMultisetSize<K, V>(m: map<K, V>)
    ensures |ValueMultiset(m)| == |m|
    decreases |m|
  {
    if m != map[] {
      var k := FirstKey(m);
      ValueMultisetSize(m - {k});
    }
  }

  /** The multiplicity of a value in the bag is the number of keys mapped to
      it: duplicates are kept, one per key. */
  lemma {:induction false} ValueMultisetCount<K, V>(m: map<K, V>, v: V)
    ensures ValueMultiset(m)[v] == |set k | k in m && m[k] == v|
    decreases |m|
  {
    if m != map[] {
      var j := FirstKey(m);
      var rest := m - {j};
      ValueMultisetCount(rest, v);
      var here, there := set k | k in m && m[k] == v, set k | k in rest && rest[k] == v;
      if m[j] == v {
        assert here == there + {j};
        assert j !in there;
      } else {
        assert here == there;
      }
    }
  }

  /** A value is in the bag exactly when some key maps to it. */
  lemma {:induction false} ValueMultisetHas<K, V>(m: map<K, V>, v: V)
    ensures v in ValueMultiset(m) <==> v in m.Values
    decreases |m|
  {
    if m != map[] {
      var k := FirstKey(m);
      ValueMultisetHas(m - {k}, v);
      assert m.Values == (m - {k}).Values + {m[k]} by {
        forall w | w in m.Values ensures w in (m - {k}).Values + {m[k]} {
          var j :| j in m && m[j] == w;
          if j != k { assert j in m - {k}; }
        }
      }
    }
  }

  /** Binding key `k` to `v` replaces the value `k` had (if any) by one `v`;
      the values of all other keys stay in the bag. */
  lemma {:induction false} ValueMultisetUpdate<K, V>(m: map<K, V>, k: K, v: V)
    ensures ValueMultiset(m[k := v]) == ValueMultiset(m - {k}) + multiset{v}
    ensures ValueMultiset(m) == ValueMultiset(m - {k}) + (if k in m then multiset{m[k]} else multiset{})
  {
    var updated, rest := m[k := v], m - {k};
    assert updated - {k} == rest;
    ValueMultisetRemove(updated, k);
    if k in m {
      ValueMultisetRemove(m, k);
    } else {
      assert rest == m;
    }
  }

  /** Binding a client overwrites its entry: the table gains a key only when
      the client was new, so it grows by at most one. */
  lemma BindSize(table: map<string, string>, clientId: string, name: string)
    ensures |table[clientId := name]| == |table| + (if clientId in table then 0 else 1)
  {
    if clientId in table {
      assert table[clientId := name].Keys == table.Keys;
    } else {
      assert table[clientId := name].Keys == table.Keys + {clientId};
    }
  }

  /** After binding `clientId`, a lookup of it yields the new name and a lookup
      of any other client yields what it yielded before. */
  lemma LookupAfterBind(table: map<string, string>, clientId: string, name: string, other: string)
    ensures Lookup(table[clientId := name], clientId) == Some(name)
    ensures other != clientId ==> Lookup(table[clientId := name], other) == Lookup(table, other)
  {
  }
}
