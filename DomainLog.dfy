/** The observable state of one domain browser, as a value: the published set
    of decoded domain names and the notifications emitted so far, together
    with the two transitions that DomainBrowserPrivate::gotNewDomain and
    gotRemoveDomain make on it. */
module DomainLog {

  /** A notification: domainAdded(name), or domainRemoved(name) together with
      whether the name was still in the published set when it was emitted. */
  datatype Event = Added(name: string) | Removed(name: string, wasPresent: bool)

  /** The published set and the notification log. */
  datatype View = View(domains: set<string>, events: seq<Event>)

  function Apply(s: set<string>, e: Event): set<string> {
    match e
    case Added(n) => s + {n}
    case Removed(n, _) => s - {n}
  }

  /** The set an observer rebuilds by applying the notifications in order,
      starting from the empty set a fresh browser publishes. */
  function Replay(log: seq<Event>): set<string> {
    if log == [] then {} else Apply(Replay(log[..|log| - 1]), log[|log| - 1])
  }

  /** e is a real change of s: an added name was absent, a removed name was
      present and was reported while still present. */
  predicate IsChange(s: set<string>, e: Event) {
    match e
    case Added(n) => n !in s
    case Removed(n, wasPresent) => wasPresent && n in s
  }

  /** The published set is what the notifications say it is, and no
      notification is a duplicate: never two domainAdded for one name without
      a domainRemoved between them, and never a domainRemoved for a name that
      is not there. */
  ghost predicate Consistent(v: View) {
    v.domains == Replay(v.events) &&
    forall i :: 0 <= i < |v.events| ==> IsChange(Replay(v.events[..i]), v.events[i])
  }

  /** What gotNewDomain does with a decoded name. */
  function InsertDomain(v: View, decoded: string): View {
    if decoded in v.domains then v
    else View(v.domains + {decoded}, v.events + [Added(decoded)])
  }

  /** What gotRemoveDomain does with a decoded name: the notification goes out
      while the name is still in the set, then the name is erased. */
  function EraseDomain(v: View, decoded: string): View {
    if decoded !in v.domains then v
    else View(v.domains - {decoded}, v.events + [Removed(decoded, decoded in v.domains)])
  }

  /** gotNewDomain applied to each raw name in turn, decoding it first. */
  function InjectAll(v: View, decode: string -> string, names: seq<string>): View
    decreases |names|
  {
    if names == [] then v else InjectAll(InsertDomain(v, decode(names[0])), decode, names[1..])
  }

  /** The decoded forms of a list of raw names. */
  function DecodedSet(decode: string -> string, names: seq<string>): set<string> {
    set i | 0 <= i < |names| :: decode(names[i])
  }

  /** Appending one real change to a consistent log keeps it consistent. */
  lemma {:induction false} AppendChange(v: View, e: Event)
    requires Consistent(v)
    requires IsChange(v.domains, e)
    ensures Consistent(View(Apply(v.domains, e), v.events + [e]))
  {
    var log := v.events + [e];
    assert log[..|log| - 1] == v.events;
    forall i | 0 <= i < |log|
      ensures IsChange(Replay(log[..i]), log[i])
    {
      if i < |v.events| {
        assert log[..i] == v.events[..i];
      }
    }
  }

  /** gotNewDomain keeps the published set and the notifications in step: the
      name ends up in the set, a name already there changes nothing, and a new
      name is announced exactly once. */
  lemma InsertDomainConsistent(v: View, decoded: string)
    requires Consistent(v)
    ensures Consistent(InsertDomain(v, decoded))
    ensures InsertDomain(v, decoded).domains == v.domains + {decoded}
  {
    if decoded !in v.domains {
      AppendChange(v, Added(decoded));
    }
  }

  /** gotRemoveDomain keeps the published set and the notifications in step:
      afterwards the set is the old set without the name, and a removal is
      reported only for a name that was there, while it was there. */
  lemma EraseDomainConsistent(v: View, decoded: string)
    requires Consistent(v)
    ensures Consistent(EraseDomain(v, decoded))
    ensures EraseDomain(v, decoded).domains == v.domains - {decoded}
  {
    if decoded in v.domains {
      AppendChange(v, Removed(decoded, true));
    }
  }

  /** Injecting a list of names keeps the published set and the
      notifications in step. */
  lemma {:induction false} InjectAllConsistent(v: View, decode: string -> string, names: seq<string>)
    requires Consistent(v)
    decreases |names|
    ensures Consistent(InjectAll(v, decode, names))
  {
    if names != [] {
      InsertDomainConsistent(v, decode(names[0]));
      InjectAllConsistent(InsertDomain(v, decode(names[0])), decode, names[1..]);
    }
  }

  lemma DecodedSetCons(decode: string -> string, names: seq<string>)
    requires names != []
    ensures DecodedSet(decode, names) == {decode(names[0])} + DecodedSet(decode, names[1..])
  {
    forall x | x in DecodedSet(decode, names)
      ensures x in {decode(names[0])} + DecodedSet(decode, names[1..])
    {
      var i :| 0 <= i < |names| && decode(names[i]) == x;
      if i > 0 {
        assert names[1..][i - 1] == names[i];
      }
    }
    forall x | x in DecodedSet(decode, names[1..])
      ensures x in DecodedSet(decode, names)
    {
      var i :| 0 <= i < |names[1..]| && decode(names[1..][i]) == x;
      assert names[i + 1] == names[1..][i];
    }
  }

  /** Injecting a list of names publishes exactly their decoded forms in
      addition to what was there. */
  lemma {:induction false} InjectAllDomains(v: View, decode: string -> string, names: seq<string>)
    decreases |names|
    ensures InjectAll(v, decode, names).domains == v.domains + DecodedSet(decode, names)
  {
    if names != [] {
      DecodedSetCons(decode, names);
      InjectAllDomains(InsertDomain(v, decode(names[0])), decode, names[1..]);
    }
  }

  /** Injecting a list of names keeps every earlier notification and appends
      only domainAdded notifications. */
  lemma {:induction false} InjectAllAppendsAdded(v: View, decode: string -> string, names: seq<string>)
    decreases |names|
    ensures var r := InjectAll(v, decode, names);
      |v.events| <= |r.events| && r.events[..|v.events|] == v.events &&
      forall i :: |v.events| <= i < |r.events| ==> r.events[i].Added?
  {
    if names != [] {
      var w := InsertDomain(v, decode(names[0]));
      InjectAllAppendsAdded(w, decode, names[1..]);
      var r := InjectAll(w, decode, names[1..]);
      assert r.events[..|v.events|] == r.events[..|w.events|][..|v.events|];
    }
  }

  /** Injecting a list of names emits exactly one notification per newly
      published name. */
  lemma {:induction false} InjectAllCount(v: View, decode: string -> string, names: seq<string>)
    decreases |names|
    ensures var r := InjectAll(v, decode, names);
      v.domains <= r.domains && |r.events| == |v.events| + |r.domains - v.domains|
  {
    if names != [] {
      var d := decode(names[0]);
      var w := InsertDomain(v, d);
      InjectAllCount(w, decode, names[1..]);
      var r := InjectAll(w, decode, names[1..]);
      if d !in v.domains {
        assert r.domains - v.domains == {d} + (r.domains - w.domains);
      }
    }
  }

  /** Injecting the same name any number of times is injecting it once. */
  lemma {:induction false} InjectRepeated(v: View, decode: string -> string, name: string, k: nat)
    requires k >= 1
    decreases k
    ensures InjectAll(v, decode, Repeat(name, k)) == InsertDomain(v, decode(name))
  {
    var w := InsertDomain(v, decode(name));
    assert Repeat(name, k)[1..] == Repeat(name, k - 1);
    if k > 1 {
      InjectRepeated(w, decode, name, k - 1);
      assert InsertDomain(w, decode(name)) == w;
    }
  }

  function Repeat<T>(x: T, k: nat): (r: seq<T>)
    ensures |r| == k && forall i :: 0 <= i < k ==> r[i] == x
  {
    if k == 0 then [] else [x] + Repeat(x, k - 1)
  }
}
