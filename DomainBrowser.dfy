/** KDNSSD::DomainBrowser on Avahi: one browse session for browsing or
    registration domains, kept by DomainBrowser and DomainBrowserPrivate. */
module AvahiDomainBrowser {
  import opened Wrappers
  import opened QtText
  import opened DomainLog
  import opened SessionFilter
  import opened StaticDomains

  /** DomainBrowser::DomainType. */
  datatype DomainType = Browsing | Registering

  /** AvahiDomainBrowserType values of avahi-common/defs.h passed to
      DomainBrowserNew. */
  const DomainBrowserBrowse: int := 0
  const DomainBrowserRegister: int := 2

  /** The calls startBrowse makes on the system bus: a wildcard-path signal
      subscription, or the org.freedesktop.Avahi.Server.DomainBrowserNew
      method call. */
  datatype BusCall =
    | Connect(signal: string)
    | DomainBrowserNew(iface: int, protocol: int, domain: string, browserType: int, flags: int)

  /** The calls of one startBrowse: the three subscriptions first, then the
      create call, on any interface and protocol, for the default domain. */
  function StartCalls(t: DomainType): (calls: seq<BusCall>)
    ensures |calls| == 4 && calls[3].DomainBrowserNew?
    ensures forall i :: 0 <= i < 3 ==> calls[i].Connect?
    ensures calls[3].browserType == (if t == Browsing then DomainBrowserBrowse else DomainBrowserRegister)
  {
    [Connect("ItemNew"), Connect("ItemRemove"), Connect("AllForNow"),
     DomainBrowserNew(-1, -1, "", if t == Browsing then DomainBrowserBrowse else DomainBrowserRegister, 0)]
  }

  class DomainBrowser {
    /** m_started */
    var started: bool
    /** m_dbusObjectPath: the session path the daemon returned, empty until then */
    var path: string
    /** m_type */
    const domainType: DomainType
    /** m_domains */
    var domains: set<string>
    /** the domainAdded and domainRemoved signals emitted so far */
    ghost var events: seq<Event>
    /** the calls made on the system bus so far */
    ghost var busCalls: seq<BusCall>
    /** DNSToDomain, the wire-to-display conversion of domain names */
    const decode: string -> string

    /** What observers see: the published set and the notifications. */
    ghost function Observed(): View
      reads this
    {
      View(domains, events)
    }

    /** The object invariant: the published set agrees with the notifications,
        which never repeat themselves; the bus was used once, by startBrowse;
        and no session path is known before startBrowse. */
    ghost predicate Valid()
      reads this
    {
      Consistent(Observed()) &&
      busCalls == (if started then StartCalls(domainType) else []) &&
      (!started ==> path == "")
    }

    constructor (t: DomainType, dnsToDomain: string -> string)
      ensures Valid()
      ensures domainType == t && decode == dnsToDomain
      ensures !started && path == "" && domains == {} && events == []
    {
      started := false;
      path := "";
      domainType := t;
      domains := {};
      events := [];
      busCalls := [];
      decode := dnsToDomain;
    }

    /** isRunning: true exactly when startBrowse has made its bus calls,
        whether or not the create call succeeded. */
    predicate IsRunning()
      reads this
      requires Valid()
      ensures IsRunning() <==> busCalls != []
    {
      started
    }

    /** domains: the published set as a list, each name once, in no
        particular order. */
    method Domains() returns (r: seq<string>)
      ensures forall x :: x in r <==> x in domains
      ensures forall i, j :: 0 <= i < j < |r| ==> r[i] != r[j]
    {
      r := [];
      var rest := domains;
      while rest != {}
        invariant rest <= domains
        invariant forall x :: x in r <==> x in domains - rest
        invariant forall i, j :: 0 <= i < j < |r| ==> r[i] != r[j]
        decreases rest
      {
        var x :| x in rest;
        assert x !in r;
        r := r + [x];
        rest := rest - {x};
      }
    }

    /** startBrowse. A second call returns at once. The first subscribes, clears
        the session path and asks the daemon for a session; with a valid reply
        it records the path and, when browsing, injects the static domains:
        those of the environment variable, then those of the configuration
        file. reply is the create call's reply (None when invalid), envDomains
        the environment variable, configFile the file's text (None when it
        cannot be opened). */
    method StartBrowse(reply: Option<string>, envDomains: string, configFile: Option<string>)
      requires Valid()
      modifies this
      ensures Valid()
      ensures IsRunning()
      ensures old(started) ==> unchanged(this)
      ensures !old(started) ==>
        busCalls == StartCalls(domainType) &&
        path == (if reply.Some? then reply.value else "") &&
        Observed() ==
          if reply.Some? && domainType == Browsing
          then InjectAll(InjectAll(old(Observed()), decode, EnvDomains(envDomains)), decode, ConfigDomains(configFile))
          else old(Observed())
    {
      if started {
        return;
      }
      started := true;
      busCalls := busCalls + [Connect("ItemNew"), Connect("ItemRemove"), Connect("AllForNow")];
      path := "";
      busCalls := busCalls + [DomainBrowserNew(-1, -1, "", if domainType == Browsing then DomainBrowserBrowse else DomainBrowserRegister, 0)];
      if reply.None? {
        return;
      }
      path := reply.value;

      if domainType == Browsing {
        InjectEnvDomains(envDomains);
        match configFile {
          case None =>
          case Some(content) => InjectConfigFile(content);
        }
      }
    }

    /** The environment part of startBrowse: a non-empty variable is split at
        each ':' and every piece, empty ones included, goes to gotNewDomain in
        order. */
    method InjectEnvDomains(envDomains: string)
      requires Valid()
      modifies this`domains, this`events
      ensures Valid()
      ensures Observed() == InjectAll(old(Observed()), decode, EnvDomains(envDomains))
    {
      if envDomains != "" {
        var pieces := Split(envDomains, EnvSeparator);
        for i := 0 to |pieces|
          invariant Valid()
          invariant InjectAll(Observed(), decode, pieces[i..]) == InjectAll(old(Observed()), decode, pieces)
        {
          assert pieces[i..][1..] == pieces[i + 1..];
          GotNewDomain(pieces[i]);
        }
      }
    }

    /** The configuration-file part of startBrowse: until the end of the file,
        each line read goes to gotNewDomain, cut at a NUL and trimmed. */
    method InjectConfigFile(content: string)
      requires Valid()
      modifies this`domains, this`events
      ensures Valid()
      ensures Observed() == InjectAll(old(Observed()), decode, ConfigDomains(Some(content)))
    {
      ghost var pending := ConfigDomains(Some(content));
      ghost var target := InjectAll(Observed(), decode, pending);
      var pos: nat := 0;
      assert content[pos..] == content;
      while pos < |content|
        invariant pos <= |content|
        invariant Valid()
        invariant pending == ConfigDomains(Some(content[pos..]))
        invariant InjectAll(Observed(), decode, pending) == target
        decreases |content| - pos
      {
        var line := FirstLine(content[pos..]);
        var next := pos + |line|;
        ConfigLineStep(content, pos, line, next);
        GotNewDomain(CleanLine(line));
        pos, pending := next, pending[1..];
      }
      assert content[pos..] == [];
    }

    /** gotGlobalItemNew: a matched ItemNew signal goes to gotNewDomain; any
        other is ignored. */
    method GotGlobalItemNew(msgPath: string, domain: string)
      requires Valid()
      modifies this`domains, this`events
      ensures Valid()
      ensures Observed() == Dispatch(old(Observed()), decode, path, ItemNew(msgPath, domain))
    {
      if !IsOurMsg(msgPath, path) {
        return;
      }
      GotNewDomain(domain);
    }

    /** gotGlobalItemRemove: a matched ItemRemove signal goes to
        gotRemoveDomain; any other is ignored. */
    method GotGlobalItemRemove(msgPath: string, domain: string)
      requires Valid()
      modifies this`domains, this`events
      ensures Valid()
      ensures Observed() == Dispatch(old(Observed()), decode, path, ItemRemove(msgPath, domain))
    {
      if !IsOurMsg(msgPath, path) {
        return;
      }
      GotRemoveDomain(domain);
    }

    /** gotGlobalAllForNow: filters the signal and then does nothing with it,
        ours or not: no field of the browser changes. */
    method GotGlobalAllForNow(msgPath: string)
      requires Valid()
      ensures unchanged(this)
    {
      if !IsOurMsg(msgPath, path) {
        return;
      }
    }

    /** gotNewDomain: decode the name; publish and announce it unless it is
        already published. */
    method GotNewDomain(domain: string)
      requires Valid()
      modifies this`domains, this`events
      ensures Valid()
      ensures Observed() == InsertDomain(old(Observed()), decode(domain))
    {
      var decoded := decode(domain);
      InsertDomainConsistent(Observed(), decoded);
      if decoded in domains {
        return;
      }
      domains := domains + {decoded};
      events := events + [Added(decoded)];
    }

    /** gotRemoveDomain: decode the name; if it is published, announce its
        removal while it is still in the set, then erase it. */
    method GotRemoveDomain(domain: string)
      requires Valid()
      modifies this`domains, this`events
      ensures Valid()
      ensures Observed() == EraseDomain(old(Observed()), decode(domain))
    {
      var decoded := decode(domain);
      EraseDomainConsistent(Observed(), decoded);
      if decoded !in domains {
        return;
      }
      events := events + [Removed(decoded, decoded in domains)];
      domains := domains - {decoded};
    }
  }

  /** Reading one more line from the configuration file at pos: its cleaned
      form comes first among the names of the unread text, and the names of
      the text after it follow. */
  lemma ConfigLineStep(content: string, pos: nat, line: string, next: nat)
    requires pos < |content| && line == FirstLine(content[pos..]) && next == pos + |line|
    ensures next <= |content|
    ensures var names := ConfigDomains(Some(content[pos..]));
      names != [] && names[0] == CleanLine(line) &&
      names[1..] == ConfigDomains(Some(content[next..]))
  {
    var s := content[pos..];
    var rest := ReadLines(content[next..]);
    assert s[|line|..] == content[next..];
    assert ReadLines(s) == [line] + rest;
    assert ([line] + rest)[1..] == rest;
  }
}
