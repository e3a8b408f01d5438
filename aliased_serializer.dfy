/** The aliased JSON message serializer.  Every message type is registered
    under a short alias; a message travels as a frame of one length byte,
    the alias in ASCII and the JSON body in ASCII.  The JSON text itself is
    opaque here: `Serialize` is handed the text the JSON library produced,
    and `Deserialize` hands back the text it would give to the library. */
module AliasedSerializer {
  import opened Common

  newtype byte = x: int | 0 <= x < 256

  /** A .NET type, by its full name. */
  type TypeName = string

  const ObjectType: TypeName := "System.Object"

  // ---------------------------------------------------------------------
  // ASCII encoding
  // ---------------------------------------------------------------------

  predicate IsAscii(s: string) {
    forall k :: 0 <= k < |s| ==> s[k] as int < 128
  }

  /** Encoding.ASCII.GetBytes: one byte per character, `?` for any
      character outside ASCII. */
  function Encode(s: string): (r: seq<byte>)
    ensures |r| == |s|
    ensures forall k :: 0 <= k < |s| ==> r[k] as int == (if s[k] as int < 128 then s[k] as int else '?' as int)
  {
    seq(|s|, k requires 0 <= k < |s| => if s[k] as int < 128 then s[k] as int as byte else '?' as int as byte)
  }

  /** Encoding.ASCII.GetString: one character per byte, `?` for any byte
      above 127. */
  function Decode(bs: seq<byte>): (r: string)
    ensures |r| == |bs|
    ensures forall k :: 0 <= k < |bs| ==> r[k] as int == (if bs[k] < 128 then bs[k] as int else '?' as int)
  {
    seq(|bs|, k requires 0 <= k < |bs| => if bs[k] < 128 then bs[k] as int as char else '?')
  }

  /** ASCII text survives the encoding, and only ASCII text does. */
  lemma AsciiRoundTrip(s: string)
    ensures Decode(Encode(s)) == s <==> IsAscii(s)
  {
    if IsAscii(s) {
      assert forall k :: 0 <= k < |s| ==> Decode(Encode(s))[k] == s[k];
    } else {
      var k :| 0 <= k < |s| && s[k] as int >= 128;
      assert Decode(Encode(s))[k] == '?' != s[k];
    }
  }

  // ---------------------------------------------------------------------
  // Registration
  // ---------------------------------------------------------------------

  /** The two lookup tables of a serializer. */
  datatype Aliases = Aliases(typeByAlias: map<string, TypeName>, aliasByType: map<TypeName, string>)

  /** Dictionary.Add on both tables: an alias or a type seen before is an
      ArgumentException. */
  function AddAlias(m: Aliases, alias: string, t: TypeName): Result<Aliases> {
    if alias in m.typeByAlias then Err(Argument)
    else if t in m.aliasByType then Err(Argument)
    else Ok(Aliases(m.typeByAlias[alias := t], m.aliasByType[t := alias]))
  }

  /** Registering the (alias, type) pairs in order. */
  function RegisterAll(pairs: seq<(string, TypeName)>): Result<Aliases>
    decreases |pairs|
  {
    if |pairs| == 0 then Ok(Aliases(map[], map[]))
    else
      var m :- RegisterAll(pairs[..|pairs| - 1]);
      AddAlias(m, pairs[|pairs| - 1].0, pairs[|pairs| - 1].1)
  }

  /** The pairs of all providers, provider by provider. */
  function Flatten(providers: seq<seq<(string, TypeName)>>): (r: seq<(string, TypeName)>)
    decreases |providers|
  {
    if |providers| == 0 then [] else Flatten(providers[..|providers| - 1]) + providers[|providers| - 1]
  }

  /** Each table undoes the other. */
  predicate Inverse(m: Aliases) {
    (forall a :: a in m.typeByAlias ==> m.typeByAlias[a] in m.aliasByType && m.aliasByType[m.typeByAlias[a]] == a)
    && (forall t :: t in m.aliasByType ==> m.aliasByType[t] in m.typeByAlias && m.typeByAlias[m.aliasByType[t]] == t)
  }

  /** Adding a fresh alias for a fresh type keeps the tables inverse. */
  lemma AddAliasKeepsInverse(m: Aliases, alias: string, t: TypeName)
    requires Inverse(m) && AddAlias(m, alias, t).Ok?
    ensures Inverse(AddAlias(m, alias, t).value)
  {
    var m' := AddAlias(m, alias, t).value;
    forall a | a in m'.typeByAlias
      ensures m'.typeByAlias[a] in m'.aliasByType && m'.aliasByType[m'.typeByAlias[a]] == a
    {
      if a != alias {
        assert m.typeByAlias[a] != t;
      }
    }
    forall u | u in m'.aliasByType
      ensures m'.aliasByType[u] in m'.typeByAlias && m'.typeByAlias[m'.aliasByType[u]] == u
    {
      if u != t {
        assert m.aliasByType[u] != alias;
      }
    }
  }

  /** A successful registration leaves two tables that are inverses of
      each other. */
  lemma {:induction false} RegisterAllInverse(pairs: seq<(string, TypeName)>)
    requires RegisterAll(pairs).Ok?
    ensures Inverse(RegisterAll(pairs).value)
    decreases |pairs|
  {
    if |pairs| > 0 {
      var prefix := pairs[..|pairs| - 1];
      RegisterAllInverse(prefix);
      AddAliasKeepsInverse(RegisterAll(prefix).value, pairs[|pairs| - 1].0, pairs[|pairs| - 1].1);
    }
  }

  /** After a successful registration every registered alias maps to its
      type. */
  lemma {:induction false} RegisteredPairsPresent(pairs: seq<(string, TypeName)>)
    requires RegisterAll(pairs).Ok?
    ensures var m := RegisterAll(pairs).value;
      forall i :: 0 <= i < |pairs| ==> pairs[i].0 in m.typeByAlias && m.typeByAlias[pairs[i].0] == pairs[i].1
    decreases |pairs|
  {
    if |pairs| > 0 {
      var prefix := pairs[..|pairs| - 1];
      RegisteredPairsPresent(prefix);
      assert forall i :: 0 <= i < |prefix| ==> pairs[i] == prefix[i];
    }
  }

  /** The tables hold nothing but the registered aliases and types. */
  lemma {:induction false} OnlyRegisteredPairs(pairs: seq<(string, TypeName)>)
    requires RegisterAll(pairs).Ok?
    ensures var m := RegisterAll(pairs).value;
      (forall a :: a in m.typeByAlias ==> exists i :: 0 <= i < |pairs| && pairs[i].0 == a)
      && (forall t :: t in m.aliasByType ==> exists i :: 0 <= i < |pairs| && pairs[i].1 == t)
    decreases |pairs|
  {
    if |pairs| > 0 {
      var prefix := pairs[..|pairs| - 1];
      OnlyRegisteredPairs(prefix);
      var m := RegisterAll(pairs).value;
      forall a | a in m.typeByAlias ensures exists i :: 0 <= i < |pairs| && pairs[i].0 == a {
        if a != pairs[|pairs| - 1].0 {
          var i :| 0 <= i < |prefix| && prefix[i].0 == a;
          assert pairs[i].0 == a;
        }
      }
      forall t | t in m.aliasByType ensures exists i :: 0 <= i < |pairs| && pairs[i].1 == t {
        if t != pairs[|pairs| - 1].1 {
          var i :| 0 <= i < |prefix| && prefix[i].1 == t;
          assert pairs[i].1 == t;
        }
      }
    }
  }

  /** Some alias or some type occurs twice among the pairs. */
  predicate HasDuplicate(pairs: seq<(string, TypeName)>) {
    exists i, j :: 0 <= i < j < |pairs| && (pairs[i].0 == pairs[j].0 || pairs[i].1 == pairs[j].1)
  }

  /** Some pair shares the alias or the type of `x`. */
  predicate Clashes(pairs: seq<(string, TypeName)>, x: (string, TypeName)) {
    exists i :: 0 <= i < |pairs| && (pairs[i].0 == x.0 || pairs[i].1 == x.1)
  }

  /** A list has a duplicate when its front has one or its last pair clashes
      with the front. */
  lemma DuplicateSplit(pairs: seq<(string, TypeName)>)
    requires |pairs| > 0
    ensures HasDuplicate(pairs) <==>
      HasDuplicate(pairs[..|pairs| - 1]) || Clashes(pairs[..|pairs| - 1], pairs[|pairs| - 1])
  {
    var n := |pairs| - 1;
    var prefix := pairs[..n];
    if HasDuplicate(pairs) {
      var i, j :| 0 <= i < j < |pairs| && (pairs[i].0 == pairs[j].0 || pairs[i].1 == pairs[j].1);
      if j < n {
        assert prefix[i] == pairs[i] && prefix[j] == pairs[j];
      } else {
        assert prefix[i] == pairs[i];
      }
    }
    if HasDuplicate(prefix) {
      var i, j :| 0 <= i < j < |prefix| && (prefix[i].0 == prefix[j].0 || prefix[i].1 == prefix[j].1);
      assert prefix[i] == pairs[i] && prefix[j] == pairs[j];
    }
    if Clashes(prefix, pairs[n]) {
      var i :| 0 <= i < |prefix| && (prefix[i].0 == pairs[n].0 || prefix[i].1 == pairs[n].1);
      assert prefix[i] == pairs[i];
    }
  }

  /** After a successful registration, adding `x` fails exactly when `x`
      clashes with a registered pair. */
  lemma AddFailsOnClash(pairs: seq<(string, TypeName)>, x: (string, TypeName))
    requires RegisterAll(pairs).Ok?
    ensures AddAlias(RegisterAll(pairs).value, x.0, x.1).Err? <==> Clashes(pairs, x)
  {
    var m := RegisterAll(pairs).value;
    RegisterAllInverse(pairs);
    RegisteredPairsPresent(pairs);
    OnlyRegisteredPairs(pairs);
    if Clashes(pairs, x) {
      var i :| 0 <= i < |pairs| && (pairs[i].0 == x.0 || pairs[i].1 == x.1);
      assert pairs[i].0 in m.typeByAlias && m.typeByAlias[pairs[i].0] in m.aliasByType;
    }
  }

  /** Registration fails exactly when an alias or a type occurs twice. */
  lemma {:induction false} RegisterAllFailsOnDuplicate(pairs: seq<(string, TypeName)>)
    ensures RegisterAll(pairs).Err? <==> HasDuplicate(pairs)
    decreases |pairs|
  {
    if |pairs| > 0 {
      var prefix := pairs[..|pairs| - 1];
      RegisterAllFailsOnDuplicate(prefix);
      DuplicateSplit(pairs);
      if RegisterAll(prefix).Ok? {
        AddFailsOnClash(prefix, pairs[|pairs| - 1]);
      }
    }
  }

  /** Registering one more pair is one more AddAlias. */
  lemma RegisterStep(p: seq<(string, TypeName)>, x: (string, TypeName))
    ensures RegisterAll(p + [x]) == (if RegisterAll(p).Err? then Err(RegisterAll(p).error)
                                     else AddAlias(RegisterAll(p).value, x.0, x.1))
  {
    assert (p + [x])[..|p|] == p;
  }

  /** A registration that succeeds also succeeded on every prefix. */
  lemma {:induction false} RegisterPrefix(p: seq<(string, TypeName)>, q: seq<(string, TypeName)>)
    requires RegisterAll(p + q).Ok?
    ensures RegisterAll(p).Ok?
    decreases |q|
  {
    if |q| > 0 {
      var pq := p + q;
      assert pq[..|pq| - 1] == p + q[..|q| - 1];
      assert RegisterAll(pq[..|pq| - 1]).Ok?;
      RegisterPrefix(p, q[..|q| - 1]);
    } else {
      assert p + q == p;
    }
  }

  // ---------------------------------------------------------------------
  // Frames
  // ---------------------------------------------------------------------

  /** The frame Serialize writes: the alias byte count cast to a byte
      (truncated to its low 8 bits), the alias bytes, the body bytes. */
  function Frame(aliasBytes: seq<byte>, bodyBytes: seq<byte>): (r: seq<byte>)
    ensures |r| == 1 + |aliasBytes| + |bodyBytes|
    ensures r[0] as int == |aliasBytes| % 256
    ensures r[1..1 + |aliasBytes|] == aliasBytes && r[1 + |aliasBytes|..] == bodyBytes
  {
    [(|aliasBytes| % 256) as byte] + aliasBytes + bodyBytes
  }

  /** The alias bytes and body bytes Deserialize reads from a frame: byte 0
      on an empty payload is an IndexOutOfRangeException, an alias running
      past the end an ArgumentOutOfRangeException. */
  function ReadFrame(payload: seq<byte>): (r: Result<(seq<byte>, seq<byte>)>)
    ensures r.Ok? ==> |payload| > 0 && payload == [payload[0]] + r.value.0 + r.value.1
                      && |r.value.0| == payload[0] as int
    ensures r.Err? <==> |payload| == 0 || 1 + payload[0] as int > |payload|
    ensures r.Err? ==> r.error == (if |payload| == 0 then IndexOutOfRange else ArgumentOutOfRange)
  {
    if |payload| == 0 then Err(IndexOutOfRange)
    else
      var aliasCount := payload[0] as int;
      if 1 + aliasCount > |payload| then Err(ArgumentOutOfRange)
      else
        assert payload == [payload[0]] + payload[1..1 + aliasCount] + payload[1 + aliasCount..];
        Ok((payload[1..1 + aliasCount], payload[1 + aliasCount..]))
  }

  /** A frame whose alias fits the length byte reads back as written. */
  lemma FrameRoundTrip(aliasBytes: seq<byte>, bodyBytes: seq<byte>)
    requires |aliasBytes| <= 255
    ensures ReadFrame(Frame(aliasBytes, bodyBytes)) == Ok((aliasBytes, bodyBytes))
  {
    var f := Frame(aliasBytes, bodyBytes);
    assert f[1..1 + |aliasBytes|] == aliasBytes;
    assert f[1 + |aliasBytes|..] == bodyBytes;
  }

  /** An alias of 256 bytes is announced as 0 bytes long: the frame reads
      back with an empty alias and the alias bytes glued onto the body. */
  lemma LongAliasIsMisread(aliasBytes: seq<byte>, bodyBytes: seq<byte>)
    requires |aliasBytes| == 256
    ensures ReadFrame(Frame(aliasBytes, bodyBytes)) == Ok(([], aliasBytes + bodyBytes))
  {
    var f := Frame(aliasBytes, bodyBytes);
    assert f[1..] == aliasBytes + bodyBytes;
  }

  /** The first type of the chain (the runtime type, then its base types up
      to `object`) that has an alias, and that alias. */
  function FirstAliased(aliasByType: map<TypeName, string>, chain: seq<TypeName>): (r: Option<(nat, string)>)
    ensures r.Some? ==>
      (r.value.0 < |chain| && chain[r.value.0] in aliasByType && r.value.1 == aliasByType[chain[r.value.0]]
       && forall j :: 0 <= j < r.value.0 ==> chain[j] !in aliasByType && chain[j] != ObjectType)
    ensures r.None? ==>
      forall k :: 0 <= k < |chain| && chain[k] in aliasByType ==> exists j :: 0 <= j < k && chain[j] == ObjectType
    decreases |chain|
  {
    if |chain| == 0 then None
    else if chain[0] in aliasByType then Some((0, aliasByType[chain[0]]))
    else if chain[0] == ObjectType then None
    else
      var rest := FirstAliased(aliasByType, chain[1..]);
      if rest.None? then
        assert forall k :: 1 <= k < |chain| && chain[k] in aliasByType ==>
          exists j :: 0 <= j < k && chain[j] == ObjectType by {
          forall k | 1 <= k < |chain| && chain[k] in aliasByType
            ensures exists j :: 0 <= j < k && chain[j] == ObjectType
          {
            assert chain[1..][k - 1] == chain[k];
            var j :| 0 <= j < k - 1 && chain[1..][j] == ObjectType;
            assert chain[j + 1] == ObjectType;
          }
        }
        None
      else
        Some((rest.value.0 + 1, rest.value.1))
  }

  class AliasedJsonMessageSerializer {
    const typeByAlias: map<string, TypeName>
    const aliasByType: map<TypeName, string>

    constructor FromAliases(m: Aliases)
      ensures typeByAlias == m.typeByAlias && aliasByType == m.aliasByType
    {
      typeByAlias := m.typeByAlias;
      aliasByType := m.aliasByType;
    }

    /** The constructor: registers the aliases of every provider in order;
        a repeated alias or type fails with an ArgumentException. */
    static method Create(providers: seq<seq<(string, TypeName)>>) returns (r: Result<AliasedJsonMessageSerializer>)
      ensures r.Err? <==> RegisterAll(Flatten(providers)).Err?
      ensures r.Err? ==> r.error == Argument
      ensures r.Ok? ==>
        (fresh(r.value)
         && Aliases(r.value.typeByAlias, r.value.aliasByType) == RegisterAll(Flatten(providers)).value)
    {
      var typeByAlias: map<string, TypeName> := map[];
      var aliasByType: map<TypeName, string> := map[];
      var i := 0;
      while i < |providers|
        invariant 0 <= i <= |providers|
        invariant RegisterAll(Flatten(providers[..i])) == Ok(Aliases(typeByAlias, aliasByType))
      {
        var provider := providers[i];
        ghost var done := Flatten(providers[..i]);
        var j := 0;
        assert done + provider[..j] == done;
        while j < |provider|
          invariant 0 <= j <= |provider|
          invariant RegisterAll(done + provider[..j]) == Ok(Aliases(typeByAlias, aliasByType))
        {
          var (alias, t) := provider[j];
          assert done + provider[..j + 1] == (done + provider[..j]) + [provider[j]];
          RegisterStep(done + provider[..j], provider[j]);
          if alias in typeByAlias {
            Abandon(providers, i, j);
            return Err(Argument);
          }
          typeByAlias := typeByAlias[alias := t];
          if t in aliasByType {
            Abandon(providers, i, j);
            return Err(Argument);
          }
          aliasByType := aliasByType[t := alias];
          j := j + 1;
        }
        assert provider[..j] == provider;
        assert providers[..i + 1][..i] == providers[..i];
        i := i + 1;
      }
      assert providers[..i] == providers;
      var s := new AliasedJsonMessageSerializer.FromAliases(Aliases(typeByAlias, aliasByType));
      return Ok(s);
    }

    /** A pair that cannot be added makes the whole registration fail. */
    static lemma Abandon(providers: seq<seq<(string, TypeName)>>, i: nat, j: nat)
      requires i < |providers| && j < |providers[i]|
      requires RegisterAll(Flatten(providers[..i]) + providers[i][..j + 1]).Err?
      ensures RegisterAll(Flatten(providers)).Err?
    {
      var all := Flatten(providers);
      var p := Flatten(providers[..i]) + providers[i][..j + 1];
      FlattenPrefix(providers, i, j + 1);
      assert p + all[|p|..] == all;
      if RegisterAll(all).Ok? {
        RegisterPrefix(p, all[|p|..]);
      }
    }

    /** The pairs up to provider `i`, pair `j`, start the flattened list. */
    static lemma {:induction false} FlattenPrefix(providers: seq<seq<(string, TypeName)>>, i: nat, j: nat)
      requires i < |providers| && j <= |providers[i]|
      ensures |Flatten(providers[..i]) + providers[i][..j]| <= |Flatten(providers)|
      ensures Flatten(providers)[..|Flatten(providers[..i]) + providers[i][..j]|]
        == Flatten(providers[..i]) + providers[i][..j]
      decreases |providers|
    {
      var n := |providers| - 1;
      assert providers[..n + 1] == providers;
      if i == n {
        assert providers[..n] == providers[..i];
      } else {
        FlattenPrefix(providers[..n], i, j);
        assert providers[..n][..i] == providers[..i] && providers[..n][i] == providers[i];
      }
    }

    /** Walks up from the runtime type until a type has an alias or
        `object` is reached. */
    method FindAlias(chain: seq<TypeName>) returns (alias: Option<string>)
      requires |chain| > 0 && chain[|chain| - 1] == ObjectType
      ensures alias.None? <==> FirstAliased(aliasByType, chain).None?
      ensures alias.Some? ==> alias.value == FirstAliased(aliasByType, chain).value.1
    {
      var i := 0;
      while chain[i] !in aliasByType && chain[i] != ObjectType
        invariant 0 <= i < |chain|
        invariant FirstAliased(aliasByType, chain[i..]) == (
          var r := FirstAliased(aliasByType, chain);
          if r.None? then None else Some((r.value.0 - i, r.value.1)))
        decreases |chain| - i
      {
        assert chain[i..][1..] == chain[i + 1..];
        i := i + 1;
      }
      alias := if chain[i] in aliasByType then Some(aliasByType[chain[i]]) else None;
    }

    /** The frame for a message whose type chain is `chain` and whose JSON
        text is `json`; a message with no aliased type in its chain is an
        InvalidOperationException. */
    method Serialize(chain: seq<TypeName>, json: string) returns (r: Result<array<byte>>)
      requires |chain| > 0 && chain[|chain| - 1] == ObjectType
      ensures FirstAliased(aliasByType, chain).None? ==> r == Err(InvalidOperation)
      ensures FirstAliased(aliasByType, chain).Some? ==>
        r.Ok? && fresh(r.value)
        && r.value[..] == Frame(Encode(FirstAliased(aliasByType, chain).value.1), Encode(json))
    {
      var alias := FindAlias(chain);
      if alias.None? {
        return Err(InvalidOperation);
      }
      var payload := WriteFrame(Encode(alias.value), Encode(json));
      return Ok(payload);
    }

    /** Allocates the payload and writes the length byte, the alias bytes
        and the body bytes into it. */
    static method WriteFrame(aliasBytes: seq<byte>, jsonBytes: seq<byte>) returns (payload: array<byte>)
      ensures fresh(payload) && payload[..] == Frame(aliasBytes, jsonBytes)
    {
      var aliasCount := |aliasBytes|;
      var jsonCount := |jsonBytes|;
      payload := new byte[1 + aliasCount + jsonCount];
      payload[0] := (aliasCount % 256) as byte;
      ghost var lengthByte := payload[..1];
      CopyInto(payload, 1, aliasBytes);
      ghost var header := payload[..1 + aliasCount];
      assert header == lengthByte + aliasBytes;
      CopyInto(payload, 1 + aliasCount, jsonBytes);
      assert payload[..] == header + jsonBytes;
    }

    /** The type registered for the frame's alias, and the JSON text of its
        body; an unknown alias is a KeyNotFoundException. */
    function Deserialize(payload: seq<byte>): (r: Result<(TypeName, string)>)
      ensures r.Ok? ==>
        (ReadFrame(payload).Ok?
         && Decode(ReadFrame(payload).value.0) in typeByAlias
         && r.value == (typeByAlias[Decode(ReadFrame(payload).value.0)], Decode(ReadFrame(payload).value.1)))
      ensures r.Err? <==> ReadFrame(payload).Err? || Decode(ReadFrame(payload).value.0) !in typeByAlias
      ensures ReadFrame(payload).Ok? && r.Err? ==> r.error == KeyNotFound
    {
      var (aliasBytes, bodyBytes) :- ReadFrame(payload);
      var alias := Decode(aliasBytes);
      if alias !in typeByAlias then Err(KeyNotFound)
      else Ok((typeByAlias[alias], Decode(bodyBytes)))
    }

    /** Encoding.GetBytes into a span: writes `src` into `payload` from
        `offset` on and leaves the other bytes alone. */
    static method CopyInto(payload: array<byte>, offset: nat, src: seq<byte>)
      requires offset + |src| <= payload.Length
      modifies payload
      ensures payload[..] == old(payload[..offset]) + src + old(payload[offset + |src|..])
    {
      var k := 0;
      while k < |src|
        invariant 0 <= k <= |src|
        invariant payload[..] == old(payload[..offset]) + src[..k] + old(payload[offset + k..])
      {
        payload[offset + k] := src[k];
        k := k + 1;
      }
    }

    /** What Serialize writes, Deserialize reads back: the nearest aliased
        type of the message and its JSON text, as long as the alias and the
        text are ASCII, the alias fits the length byte and the tables are
        inverses of each other (as registration leaves them). */
    lemma SerializeRoundTrip(chain: seq<TypeName>, json: string)
      requires Inverse(Aliases(typeByAlias, aliasByType))
      requires FirstAliased(aliasByType, chain).Some?
      requires var a := FirstAliased(aliasByType, chain).value.1; IsAscii(a) && |a| <= 255
      requires IsAscii(json)
      ensures var first := FirstAliased(aliasByType, chain).value;
        Deserialize(Frame(Encode(first.1), Encode(json))) == Ok((chain[first.0], json))
    {
      var first := FirstAliased(aliasByType, chain).value;
      FrameRoundTrip(Encode(first.1), Encode(json));
      AsciiRoundTrip(first.1);
      AsciiRoundTrip(json);
    }
  }
}
