/**
Cipher selection by a TLS server (`ssl3_choose_cipher`), with equal-preference groups: within a
group of the server's list the client's order decides.
*/
module CipherChoice {
  import opened Bits
  import opened Bytes

  datatype Cipher = Cipher(id: nat, minVersion: nat, maxVersion: nat, mkey: nat, auth: nat)

  /** Supported for the version and compatible with the server's keys. */
  predicate Usable(c: Cipher, version: nat, maskK: nat, maskA: nat)
  {
    c.minVersion <= version <= c.maxVersion && And(c.mkey, maskK) != 0 && And(c.auth, maskA) != 0
  }

  /** A usable cipher on both lists. */
  predicate Shared(c: Cipher, allow: seq<Cipher>, version: nat, maskK: nat, maskA: nat)
  {
    Usable(c, version, maskK, maskA) && c in allow
  }

  /** Where the group of element `i` begins: behind the last element before it that ends a group. */
  function GroupStart(inGroup: seq<bool>, i: nat): (s: nat)
    requires i < |inGroup|
    ensures s <= i && (s == 0 || !inGroup[s - 1])
    ensures forall j :: s <= j < i ==> inGroup[j]
  {
    if i == 0 || !inGroup[i - 1] then i else GroupStart(inGroup, i - 1)
  }

  /** Position of the first occurrence of `c`. */
  function Position(list: seq<Cipher>, c: Cipher): (k: nat)
    requires c in list
    ensures k < |list| && list[k] == c && forall j :: 0 <= j < k ==> list[j] != c
  {
    if list[0] == c then 0 else 1 + Position(list[1..], c)
  }

  /** `sk_SSL_CIPHER_find`. */
  method Find(list: seq<Cipher>, c: Cipher) returns (found: bool, index: nat)
    ensures found <==> c in list
    ensures found ==> index == Position(list, c)
  {
    index := 0;
    while index < |list|
      invariant index <= |list| && forall j :: 0 <= j < index ==> list[j] != c
    {
      if list[index] == c {
        return true, index;
      }
      index := index + 1;
    }
    return false, 0;
  }

  /** Element `i` of `prio` is a best choice: of the first group with a shared cipher, the earliest in `allow`. */
  predicate Best(prio: seq<Cipher>, inGroup: seq<bool>, allow: seq<Cipher>, version: nat, maskK: nat, maskA: nat,
                 i: nat)
    requires |inGroup| == |prio|
  {
    && i < |prio| && Shared(prio[i], allow, version, maskK, maskA)
    && (forall j :: 0 <= j < GroupStart(inGroup, i) ==> !Shared(prio[j], allow, version, maskK, maskA))
    && forall j :: 0 <= j < |prio| && Shared(prio[j], allow, version, maskK, maskA) ==>
         GroupStart(inGroup, j) == GroupStart(inGroup, i) ==> Position(allow, prio[i]) <= Position(allow, prio[j])
  }

  /** Every group ends inside the list. */
  predicate WellGrouped(inGroup: seq<bool>)
  {
    inGroup == [] || !inGroup[|inGroup| - 1]
  }

  /** Two best choices are the same cipher: the specification leaves nothing open. */
  lemma BestUnique(prio: seq<Cipher>, inGroup: seq<bool>, allow: seq<Cipher>, version: nat, maskK: nat, maskA: nat,
                   i: nat, j: nat)
    requires |inGroup| == |prio|
    requires Best(prio, inGroup, allow, version, maskK, maskA, i)
    requires Best(prio, inGroup, allow, version, maskK, maskA, j)
    ensures prio[i] == prio[j]
  {
    var s, t := GroupStart(inGroup, i), GroupStart(inGroup, j);
    if s < t {
      GroupsDisjoint(inGroup, i, j);
      assert false;
    } else if t < s {
      GroupsDisjoint(inGroup, j, i);
      assert false;
    }
  }

  lemma GroupsDisjoint(inGroup: seq<bool>, i: nat, j: nat)
    requires i < |inGroup| && j < |inGroup| && GroupStart(inGroup, i) < GroupStart(inGroup, j)
    ensures i < GroupStart(inGroup, j)
  {
  }

  /** Elements from a group's start up to its end share that start. */
  lemma {:induction false} SameGroup(inGroup: seq<bool>, start: nat, i: nat)
    requires start <= i < |inGroup| && (start == 0 || !inGroup[start - 1])
    requires forall j :: start <= j < i ==> inGroup[j]
    ensures GroupStart(inGroup, i) == start
    decreases i
  {
    if i > start { SameGroup(inGroup, start, i - 1); }
  }

  /** The tests of a cipher in `ssl3_choose_cipher`: version, key exchange, authentication, and the other list. */
  method Check(c: Cipher, allow: seq<Cipher>, version: nat, maskK: nat, maskA: nat) returns (ok: bool, index: nat)
    ensures ok <==> Shared(c, allow, version, maskK, maskA)
    ensures ok ==> c in allow && index == Position(allow, c)
  {
    hide And;
    var found;
    found, index := Find(allow, c);
    ok := c.minVersion <= version && version <= c.maxVersion && And(c.mkey, maskK) != 0 && And(c.auth, maskA) != 0 &&
          found;
  }

  /**
  `ssl3_choose_cipher`. With the server's preferences `inGroup` are its group flags; with the client's
  every element is a group of its own and `allow` is the server's list.
  */
  method Choose(prio: seq<Cipher>, inGroup: seq<bool>, allow: seq<Cipher>, version: nat, maskK: nat, maskA: nat)
    returns (r: Option<Cipher>)
    requires |inGroup| == |prio| && WellGrouped(inGroup)
    ensures r.Some? <==> exists i :: 0 <= i < |prio| && Shared(prio[i], allow, version, maskK, maskA)
    ensures r.Some? ==>
      exists i :: 0 <= i < |prio| && prio[i] == r.value && Best(prio, inGroup, allow, version, maskK, maskA, i)
  {
    hide Best, GroupStart, Shared;
    var groupMin := -1;
    ghost var start, best := 0, 0;
    for i := 0 to |prio|
      invariant 0 <= start <= i && (start == 0 || !inGroup[start - 1]) && (forall j :: start <= j < i ==> inGroup[j])
      invariant forall j :: 0 <= j < start ==> !Shared(prio[j], allow, version, maskK, maskA)
      invariant groupMin == -1 ==> forall j :: start <= j < i ==> !Shared(prio[j], allow, version, maskK, maskA)
      invariant groupMin != -1 ==>
        && start <= best < i && groupMin >= 0
        && Least(prio, allow, version, maskK, maskA, start, i, best)
        && prio[best] in allow && groupMin == Position(allow, prio[best])
    {
      var ok, index := Check(prio[i], allow, version, maskK, maskA);
      if ok {
        if groupMin == -1 || groupMin > index {
          best := i;
        }
        if inGroup[i] {
          if groupMin == -1 || groupMin > index {
            groupMin := index;
          }
        } else {
          if groupMin != -1 && groupMin < index {
            index := groupMin;
          }
          GroupDecides(prio, inGroup, allow, version, maskK, maskA, start, i, best);
          return Some(allow[index]);
        }
      }
      if !inGroup[i] {
        if groupMin != -1 {
          GroupDecides(prio, inGroup, allow, version, maskK, maskA, start, i, best);
          return Some(allow[groupMin]);
        }
        start := i + 1;
      }
    }
    return None;
  }

  /** `best` is the shared cipher earliest in `allow` among elements `start` up to `end`. */
  predicate Least(prio: seq<Cipher>, allow: seq<Cipher>, version: nat, maskK: nat, maskA: nat, start: nat, end: nat,
                  best: nat)
    requires start <= best < end <= |prio|
  {
    && Shared(prio[best], allow, version, maskK, maskA)
    && forall j :: start <= j < end && Shared(prio[j], allow, version, maskK, maskA) ==>
         Position(allow, prio[best]) <= Position(allow, prio[j])
  }

  lemma GroupDecides(prio: seq<Cipher>, inGroup: seq<bool>, allow: seq<Cipher>, version: nat, maskK: nat, maskA: nat,
                     start: nat, end: nat, best: nat)
    requires |inGroup| == |prio| && start <= best <= end < |prio|
    requires (start == 0 || !inGroup[start - 1]) && !inGroup[end] && forall j :: start <= j < end ==> inGroup[j]
    requires forall j :: 0 <= j < start ==> !Shared(prio[j], allow, version, maskK, maskA)
    requires Least(prio, allow, version, maskK, maskA, start, end + 1, best)
    ensures Best(prio, inGroup, allow, version, maskK, maskA, best)
  {
    SameGroup(inGroup, start, best);
    forall j | 0 <= j < |prio| && GroupStart(inGroup, j) == start ensures start <= j <= end {
    }
  }

  /** No shared cipher is in an earlier group, and none of the same group comes earlier in `allow`. */
  lemma ServerOrder(prio: seq<Cipher>, inGroup: seq<bool>, allow: seq<Cipher>, version: nat, maskK: nat, maskA: nat,
                    i: nat)
    requires |inGroup| == |prio| && Best(prio, inGroup, allow, version, maskK, maskA, i)
    ensures Shared(prio[i], allow, version, maskK, maskA)
    ensures forall j :: 0 <= j < |prio| && Shared(prio[j], allow, version, maskK, maskA) ==>
      && GroupStart(inGroup, i) <= GroupStart(inGroup, j)
      && (GroupStart(inGroup, i) == GroupStart(inGroup, j) ==> Position(allow, prio[i]) <= Position(allow, prio[j]))
  {
    hide Shared;
    forall j | 0 <= j < |prio| && Shared(prio[j], allow, version, maskK, maskA)
      ensures GroupStart(inGroup, i) <= GroupStart(inGroup, j)
    {
      if GroupStart(inGroup, j) < GroupStart(inGroup, i) { GroupsDisjoint(inGroup, j, i); }
    }
  }

  /** With the client's preferences the choice is the first of its ciphers that is shared. */
  lemma ClientOrder(prio: seq<Cipher>, allow: seq<Cipher>, version: nat, maskK: nat, maskA: nat, i: nat)
    requires Best(prio, seq(|prio|, _ => false), allow, version, maskK, maskA, i)
    ensures i < |prio| && Shared(prio[i], allow, version, maskK, maskA)
    ensures forall j :: 0 <= j < i ==> !Shared(prio[j], allow, version, maskK, maskA)
  {
  }

  /** `ssl3_choose_cipher` under either preference. */
  method ChooseCipher(serverPreference: bool, client: seq<Cipher>, server: seq<Cipher>, inGroup: seq<bool>,
                      version: nat, maskK: nat, maskA: nat) returns (r: Option<Cipher>)
    requires |inGroup| == |server| && WellGrouped(inGroup)
    // a cipher of both sides that the version knows and the server's keys can serve, if there is one
    ensures r.Some? ==>
      && r.value in client && r.value in server && r.value.minVersion <= version <= r.value.maxVersion
      && And(r.value.mkey, maskK) != 0 && And(r.value.auth, maskA) != 0
    ensures r.None? ==> forall c | c in client && c in server ::
      version < c.minVersion || c.maxVersion < version || And(c.mkey, maskK) == 0 || And(c.auth, maskA) == 0
    // no such cipher is in an earlier group of the server's, or comes earlier with the client and is in the same group
    ensures serverPreference && r.Some? ==>
      exists i :: 0 <= i < |server| && server[i] == r.value &&
        forall j :: 0 <= j < |server| && Shared(server[j], client, version, maskK, maskA) ==>
          && GroupStart(inGroup, i) <= GroupStart(inGroup, j)
          && (GroupStart(inGroup, i) == GroupStart(inGroup, j) ==>
                Position(client, r.value) <= Position(client, server[j]))
    ensures !serverPreference && r.Some? ==>
      exists i :: 0 <= i < |client| && client[i] == r.value &&
        forall j :: 0 <= j < i ==> !Shared(client[j], server, version, maskK, maskA)
  {
    hide And, Best, GroupStart, Position;
    if serverPreference {
      r := Choose(server, inGroup, client, version, maskK, maskA);
      if r.Some? {
        ghost var i :| 0 <= i < |server| && server[i] == r.value &&
                       Best(server, inGroup, client, version, maskK, maskA, i);
        ServerOrder(server, inGroup, client, version, maskK, maskA, i);
      }
    } else {
      var alone := seq(|client|, _ => false);
      r := Choose(client, alone, server, version, maskK, maskA);
      if r.Some? {
        ghost var i :| 0 <= i < |client| && client[i] == r.value &&
                       Best(client, alone, server, version, maskK, maskA, i);
        ClientOrder(client, server, version, maskK, maskA, i);
      }
    }
  }
}
