/** The race-avoidance filter of the domain browser. The browser subscribes to
    the ItemNew, ItemRemove and AllForNow signals of every
    org.freedesktop.Avahi.DomainBrowser object on the system bus, and each
    handler acts on a signal only when the signal's object path is the path
    the daemon returned for this browser's session. */
module SessionFilter {
  import opened DomainLog

  /** isOurMsg: nothing matches before the session path is known (the
      recorded path is empty); afterwards, only signals sent from that path. */
  predicate IsOurMsg(msgPath: string, ourPath: string) {
    ourPath != "" && msgPath == ourPath
  }

  /** A domain-browser signal as it arrives on the bus: the object path it was
      sent from and its domain argument. The interface, protocol and flags
      arguments are left out: no handler looks at them. */
  datatype Signal =
    | ItemNew(path: string, domain: string)
    | ItemRemove(path: string, domain: string)
    | AllForNow(path: string)

  /** What the handlers gotGlobalItemNew, gotGlobalItemRemove and
      gotGlobalAllForNow do with one signal. */
  function Dispatch(v: View, decode: string -> string, ourPath: string, s: Signal): View {
    match s
    case ItemNew(p, d) => if IsOurMsg(p, ourPath) then InsertDomain(v, decode(d)) else v
    case ItemRemove(p, d) => if IsOurMsg(p, ourPath) then EraseDomain(v, decode(d)) else v
    case AllForNow(_) => v
  }

  /** A stream of signals handled one after the other. */
  function Run(v: View, decode: string -> string, ourPath: string, signals: seq<Signal>): View
    decreases |signals|
  {
    if signals == [] then v else Run(Dispatch(v, decode, ourPath, signals[0]), decode, ourPath, signals[1..])
  }

  /** The signals of a stream that belong to the session at ourPath. */
  function Ours(signals: seq<Signal>, ourPath: string): (r: seq<Signal>)
    ensures forall i :: 0 <= i < |r| ==> IsOurMsg(r[i].path, ourPath)
    ensures |r| <= |signals|
  {
    if signals == [] then []
    else if IsOurMsg(signals[0].path, ourPath) then [signals[0]] + Ours(signals[1..], ourPath)
    else Ours(signals[1..], ourPath)
  }

  /** Signals that are not ours have no effect at all; in particular, before
      the session path is recorded, or when the create call failed and it
      stays empty, every signal is ignored. */
  lemma {:induction false} ForeignSignalsIgnored(v: View, decode: string -> string, ourPath: string, signals: seq<Signal>)
    requires forall i :: 0 <= i < |signals| ==> !IsOurMsg(signals[i].path, ourPath)
    decreases |signals|
    ensures Run(v, decode, ourPath, signals) == v
  {
    if signals != [] {
      ForeignSignalsIgnored(v, decode, ourPath, signals[1..]);
    }
  }

  /** A browser whose create call failed keeps an empty session path, so no
      signal ever reaches its domain set. */
  lemma NoSessionIgnoresAll(v: View, decode: string -> string, signals: seq<Signal>)
    ensures Run(v, decode, "", signals) == v
  {
    ForeignSignalsIgnored(v, decode, "", signals);
  }

  /** Only a session's own signals decide what it publishes: dropping all
      signals from other sessions sharing the bus changes nothing. */
  lemma {:induction false} OnlyOursMatter(v: View, decode: string -> string, ourPath: string, signals: seq<Signal>)
    decreases |signals|
    ensures Run(v, decode, ourPath, signals) == Run(v, decode, ourPath, Ours(signals, ourPath))
  {
    if signals != [] {
      var w := Dispatch(v, decode, ourPath, signals[0]);
      OnlyOursMatter(w, decode, ourPath, signals[1..]);
      if IsOurMsg(signals[0].path, ourPath) {
        assert ([signals[0]] + Ours(signals[1..], ourPath))[1..] == Ours(signals[1..], ourPath);
      } else {
        assert w == v;
        OnlyOursMatter(v, decode, ourPath, signals[1..]);
      }
    }
  }

  /** Whatever the daemon sends, the published set and the notifications stay
      in step and no notification is a duplicate. */
  lemma {:induction false} RunConsistent(v: View, decode: string -> string, ourPath: string, signals: seq<Signal>)
    requires Consistent(v)
    decreases |signals|
    ensures Consistent(Run(v, decode, ourPath, signals))
  {
    if signals != [] {
      var s := signals[0];
      match s {
        case ItemNew(p, d) => InsertDomainConsistent(v, decode(d));
        case ItemRemove(p, d) => EraseDomainConsistent(v, decode(d));
        case AllForNow(_) =>
      }
      RunConsistent(Dispatch(v, decode, ourPath, s), decode, ourPath, signals[1..]);
    }
  }

  /** A repeated announcement of one domain is published and notified once. */
  lemma {:induction false} RepeatedItemNew(v: View, decode: string -> string, ourPath: string, domain: string, k: nat)
    requires ourPath != "" && k >= 1
    decreases k
    ensures Run(v, decode, ourPath, Repeat(ItemNew(ourPath, domain), k)) == InsertDomain(v, decode(domain))
  {
    var sigs := Repeat(ItemNew(ourPath, domain), k);
    var w := InsertDomain(v, decode(domain));
    assert sigs[1..] == Repeat(ItemNew(ourPath, domain), k - 1);
    if k > 1 {
      RepeatedItemNew(w, decode, ourPath, domain, k - 1);
      assert InsertDomain(w, decode(domain)) == w;
    }
  }

  /** After a matched ItemRemove the name is no longer published, and if it
      was published, the last notification reports its removal. */
  lemma RemovedIsGone(v: View, decode: string -> string, ourPath: string, domain: string)
    requires ourPath != ""
    ensures var r := Dispatch(v, decode, ourPath, ItemRemove(ourPath, domain));
      decode(domain) !in r.domains &&
      (decode(domain) in v.domains ==> r.events == v.events + [Removed(decode(domain), true)])
  {
  }
}
