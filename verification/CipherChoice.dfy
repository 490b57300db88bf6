/** ssl3_choose_cipher of handshake_server.cc. */
module CipherChoice {
  import opened Bits
  import opened Bytes

  datatype Cipher = Cipher(id: nat, mkey: nat, auth: nat, minVersion: nat, maxVersion: nat)

  /** What the server can do in this handshake. */
  datatype Config = Config(version: nat, maskK: nat, maskA: nat)

  /** sk_SSL_CIPHER_find: the first place of c. */
  function Find(list: seq<Cipher>, c: Cipher): (r: Option<nat>)
    ensures r.Some? ==> r.value < |list| && list[r.value] == c && c !in list[..r.value]
    ensures r.None? ==> c !in list
  {
    if list == [] then None
    else if list[0] == c then Some(0)
    else
      var r := Find(list[1..], c);
      if r.Some? then
        assert list[..r.value + 1] == [list[0]] + list[1..][..r.value];
        Some(r.value + 1)
      else None
  }

  predicate Supported(c: Cipher, config: Config) {
    && c.minVersion <= config.version <= c.maxVersion
    && And(c.mkey, config.maskK) != 0 && And(c.auth, config.maskA) != 0
  }

  /** Both sides have it and it fits the configuration. */
  predicate Acceptable(c: Cipher, allow: seq<Cipher>, config: Config) {
    Supported(c, config) && c in allow
  }

  /** in_group_flags may be absent: then every entry is a group of its own. */
  predicate Open(flags: Option<seq<bool>>, i: nat)
    requires flags.Some? ==> i < |flags.value|
  {
    flags.Some? && flags.value[i]
  }

  /** The entries up to the end of the last group that has an end. */
  function Closed(flags: Option<seq<bool>>, n: nat): (k: nat)
    requires flags.Some? ==> n <= |flags.value|
    ensures k <= n && (k > 0 ==> !Open(flags, k - 1))
    ensures forall i :: k <= i < n ==> Open(flags, i)
    decreases n
  {
    if n == 0 || !Open(flags, n - 1) then n else Closed(flags, n - 1)
  }

  /** Entries i and j are in one group. */
  predicate SameGroup(flags: Option<seq<bool>>, i: nat, j: nat)
    requires flags.Some? ==> i < |flags.value| && j < |flags.value|
  {
    && (forall k :: i <= k < j ==> Open(flags, k))
    && (forall k :: j <= k < i ==> Open(flags, k))
  }

  /** Entry i is the choice: nothing acceptable is in an earlier group, and nothing acceptable in
      its own comes earlier in allow. */
  predicate Best(prio: seq<Cipher>, flags: Option<seq<bool>>, allow: seq<Cipher>, config: Config, i: nat)
    requires i < |prio| && (flags.Some? ==> |flags.value| == |prio|)
  {
    && Acceptable(prio[i], allow, config)
    && (forall j :: 0 <= j < i && !SameGroup(flags, j, i) ==> !Acceptable(prio[j], allow, config))
    && (forall j :: 0 <= j < |prio| && SameGroup(flags, j, i) && Acceptable(prio[j], allow, config) ==>
          Find(allow, prio[i]).value <= Find(allow, prio[j]).value)
  }

  /** The choice by entry: prio is searched, allow is the other side's list. Entries of a last
      group without an end are never chosen. */
  method Choose(prio: seq<Cipher>, flags: Option<seq<bool>>, allow: seq<Cipher>, config: Config)
    returns (r: Option<Cipher>)
    requires flags.Some? ==> |flags.value| == |prio|
    ensures r.None? <==> forall i :: 0 <= i < Closed(flags, |prio|) ==> !Acceptable(prio[i], allow, config)
    ensures r.Some? ==> exists i :: 0 <= i < |prio| && prio[i] == r.value && Best(prio, flags, allow, config, i)
  {
    hide And, Supported, Find, Best, Closed;
    var groupMin := -1;
    ghost var start, best := 0, 0;
    for i := 0 to |prio|
      invariant 0 <= start <= i && (start > 0 ==> !Open(flags, start - 1))
      invariant forall k :: start <= k < i ==> Open(flags, k)
      invariant forall k :: 0 <= k < start ==> !Acceptable(prio[k], allow, config)
      invariant groupMin == -1 ==> forall k :: start <= k < i ==> !Acceptable(prio[k], allow, config)
      invariant groupMin != -1 ==> flags.Some?
      invariant groupMin != -1 ==>
                  && start <= best < i && Acceptable(prio[best], allow, config)
                  && groupMin == Find(allow, prio[best]).value
                  && forall k :: start <= k < i && Acceptable(prio[k], allow, config) ==> groupMin <= Find(allow, prio[k]).value
    {
      var c := prio[i];
      var found := Find(allow, c);
      if Supported(c, config) && found.Some? {
        var cipherIndex := found.value;
        if flags.Some? && flags.value[i] {
          if groupMin == -1 || groupMin > cipherIndex {
            groupMin := cipherIndex;
            best := i;
          }
        } else {
          if groupMin != -1 && groupMin < cipherIndex {
            cipherIndex := groupMin;
          } else {
            best := i;
          }
          GroupDone(prio, flags, allow, config, start, i, best);
          return Some(allow[cipherIndex]);
        }
      }
      if flags.Some? && !flags.value[i] && groupMin != -1 {
        GroupDone(prio, flags, allow, config, start, i, best);
        return Some(allow[groupMin]);
      }
      if !Open(flags, i) { start := i + 1; }
    }
    return None;
  }

  /** At the end of the first group with anything acceptable, its best entry is the choice. */
  lemma GroupDone(prio: seq<Cipher>, flags: Option<seq<bool>>, allow: seq<Cipher>, config: Config,
                  start: nat, end: nat, best: nat)
    requires start <= best <= end < |prio| && (flags.Some? ==> |flags.value| == |prio|)
    requires !Open(flags, end) && (start > 0 ==> !Open(flags, start - 1))
    requires forall k :: start <= k < end ==> Open(flags, k)
    requires forall k :: 0 <= k < start ==> !Acceptable(prio[k], allow, config)
    requires Acceptable(prio[best], allow, config)
    requires forall k :: start <= k <= end && Acceptable(prio[k], allow, config) ==>
               Find(allow, prio[best]).value <= Find(allow, prio[k]).value
    ensures Best(prio, flags, allow, config, best) && best < Closed(flags, |prio|)
  {
    hide Supported;
    assert start > 0 ==> !Open(flags, start - 1);
    assert !Open(flags, end);
    forall j | 0 <= j < |prio| && SameGroup(flags, j, best) && Acceptable(prio[j], allow, config)
      ensures Find(allow, prio[best]).value <= Find(allow, prio[j]).value
    {
    }
  }

  /** ssl3_choose_cipher. */
  method ChooseCipher(serverPreference: bool, server: seq<Cipher>, groups: seq<bool>, client: seq<Cipher>, config: Config)
    returns (r: Option<Cipher>)
    requires |groups| == |server|
    ensures serverPreference ==>
              && (r.None? <==> forall i :: 0 <= i < Closed(Some(groups), |server|) ==> !Acceptable(server[i], client, config))
              && (r.Some? ==> exists i :: 0 <= i < |server| && server[i] == r.value && Best(server, Some(groups), client, config, i))
    ensures !serverPreference ==>
              && (r.None? <==> forall i :: 0 <= i < |client| ==> !Acceptable(client[i], server, config))
              && (r.Some? ==> exists i :: 0 <= i < |client| && client[i] == r.value && Acceptable(client[i], server, config)
                                && forall j :: 0 <= j < i ==> !Acceptable(client[j], server, config))
  {
    hide Acceptable, Find;
    if serverPreference {
      r := Choose(server, Some(groups), client, config);
    } else {
      r := Choose(client, None, server, config);
      assert Closed(None, |client|) == |client|;
      if r.Some? {
        var i :| 0 <= i < |client| && client[i] == r.value && Best(client, None, server, config, i);
        forall j | 0 <= j < i ensures !Acceptable(client[j], server, config) {
          assert !Open(None, j);
          assert !SameGroup(None, j, i);
        }
      }
    }
  }

  /** The lists the preference parser builds end their last group, so nothing is left out. */
  lemma AllClosed(flags: seq<bool>)
    ensures Closed(Some(flags), |flags|) == |flags| <==> flags == [] || !flags[|flags| - 1]
  {
    var f := Some(flags);
    assert flags != [] ==> (flags[|flags| - 1] <==> Open(f, |flags| - 1));
  }
}
