# KDNSSD domain browser on Avahi, modelled in Dafny

This project models the domain-browse session of KDNSSD's Avahi backend
(`KDNSSD::DomainBrowser` and `DomainBrowserPrivate` in
`src/avahi-domainbrowser.cpp`). A domain browser asks the Avahi daemon, over
the system D-Bus, for a browse session that lists either browsing or
registration domains. It keeps the deduplicated set of domains found so far
and emits `domainAdded` / `domainRemoved` for every change.

Avahi may fire a session's signals before the client has the session's
object path. So `startBrowse` subscribes first, to the `ItemNew`,
`ItemRemove` and `AllForNow` signals of every domain-browser object on the
bus, whatever its path. Only then does it call `DomainBrowserNew`. Each
handler then drops any signal whose object path is not the recorded session
path. In browsing mode, after a valid reply, `startBrowse` also injects
statically configured domains:

- first the `:`-separated pieces of the `AVAHI_BROWSE_DOMAINS` environment
  variable;
- then the trimmed lines of the `avahi/browse-domains` configuration file.

Files:

- `DomainBrowser.dfy` (module `AvahiDomainBrowser`): the `DomainBrowser`
  class. Its fields are `started`, `path`, `domainType` and `domains`. Two
  ghost logs record the emitted notifications (`events`) and the bus calls
  made (`busCalls`). The class has `StartBrowse`, the three global signal
  handlers, `GotNewDomain` / `GotRemoveDomain`, and the observers `Domains`
  and `IsRunning`. `Valid()` is the object invariant.
- `DomainLog.dfy`: the observable state as a value `View(domains, events)`.
  `InsertDomain` / `EraseDomain` are the transitions of `gotNewDomain` /
  `gotRemoveDomain`. `Consistent` is the invariant they keep: the set is what
  replaying the notifications gives, and every notification is a real change.
- `SessionFilter.dfy`: `isOurMsg` and the dispatch of signals.
  `Run` handles a stream of signals, and lemmas about it state the
  race-filter guarantees.
- `StaticDomains.dfy`: which names the environment variable and the
  configuration file contribute.
- `QtText.dfy`: the Qt behaviour that the loader relies on.
  - `QString::split` keeps empty parts.
  - `QString::trimmed` uses `QChar::isSpace` white space.
  - `QString::fromUtf8` on a `char*` stops at the first NUL.
  - `QIODevice::readLine` returns one line, up to and including its newline.
- `Wrappers.dfy`: `Option`.

Inputs that the source reads from the outside world are method parameters:

- the `DomainBrowserNew` reply (`None` when `isValid()` fails);
- the environment variable's value;
- the configuration file's text (`None` when it cannot be opened).

`DNSToDomain` is a constructor argument, `decode`. Its body lives in
`tier2/kdnssd/src/avahi_server_interface.cpp:47-51`. It is a wrapper around
`QUrl::fromAce` and `domainIsLocal`, and neither of those is part of this
model.

`isOurMsg` is not defined in the files modelled here: the header declaring it
is not part of this model. `SessionFilter.IsOurMsg` gives it the behaviour
that the race-avoidance comment at `src/avahi-domainbrowser.cpp:50-62`
describes. An empty recorded path matches nothing. Otherwise, a signal
matches when its object path equals the recorded path.

Two behaviours of the code worth noting:

- `isRunning()` returns true even after a failed `DomainBrowserNew` call,
  because `m_started` is set before the call
  (`src/avahi-domainbrowser.cpp:48`, `89-91`, `175-178`).
- The `AllForNow` handler records nothing once the signal is filtered
  (`src/avahi-domainbrowser.cpp:143-148`).

## Model

| member | source | states |
|---|---|---|
| AvahiDomainBrowser.DomainBrowser.constructor | src/avahi-domainbrowser.cpp:35-36 | a new browser is not started, has no session path, publishes nothing and has emitted nothing |
| AvahiDomainBrowser.DomainBrowser.StartBrowse | src/avahi-domainbrowser.cpp:43-117 | a second call changes nothing at all. A first call does the following: it makes exactly the three subscriptions and one DomainBrowserNew call, and isRunning is true afterwards whatever the reply. With an invalid reply, the path stays empty and domains and notifications are unchanged. With a valid reply, the path is the reply's. In browsing mode the result is then exactly the environment names followed by the configuration-file names, each passed through gotNewDomain; in registering mode nothing is injected. The object invariant is kept |
| AvahiDomainBrowser.DomainBrowser.InjectEnvDomains | src/avahi-domainbrowser.cpp:102-108 | the published state afterwards is every piece of the non-empty variable, in order and empty pieces included, passed through gotNewDomain; an empty variable injects nothing |
| AvahiDomainBrowser.DomainBrowser.InjectConfigFile | src/avahi-domainbrowser.cpp:110-115 | the published state afterwards is every line readLine returns until atEnd, cut at a NUL and trimmed, passed through gotNewDomain in file order |
| AvahiDomainBrowser.DomainBrowser.GotGlobalItemNew | src/avahi-domainbrowser.cpp:119-129 | a signal that is not ours changes nothing; one that is ours has exactly the effect of gotNewDomain on its domain |
| AvahiDomainBrowser.DomainBrowser.GotGlobalItemRemove | src/avahi-domainbrowser.cpp:131-141 | a signal that is not ours changes nothing; one that is ours has exactly the effect of gotRemoveDomain on its domain |
| AvahiDomainBrowser.DomainBrowser.GotGlobalAllForNow | src/avahi-domainbrowser.cpp:143-148 | an AllForNow signal, ours or not, leaves every field of the browser unchanged |
| AvahiDomainBrowser.DomainBrowser.GotNewDomain | src/avahi-domainbrowser.cpp:150-158 | the new state is InsertDomain of the old state and the decoded name, and the object invariant is kept |
| AvahiDomainBrowser.DomainBrowser.GotRemoveDomain | src/avahi-domainbrowser.cpp:160-168 | the new state is EraseDomain of the old state and the decoded name, with the removal notified while the name is still in the set; the object invariant is kept |
| AvahiDomainBrowser.DomainBrowser.Domains | src/avahi-domainbrowser.cpp:170-173 | the returned list holds exactly the published domains, each once; nothing is modified |
| AvahiDomainBrowser.DomainBrowser.IsRunning | src/avahi-domainbrowser.cpp:175-178 | true exactly when startBrowse has made its bus calls |
| AvahiDomainBrowser.StartCalls | src/avahi-domainbrowser.cpp:63-88 | startBrowse subscribes to the three signals before the create call; the create call asks for AVAHI_DOMAIN_BROWSER_BROWSE (0) in browsing mode and AVAHI_DOMAIN_BROWSER_REGISTER (2) otherwise |
| DomainLog.InsertDomainConsistent | src/avahi-domainbrowser.cpp:150-158 | gotNewDomain leaves the name published and keeps the set equal to the replay of the notifications, with no duplicate domainAdded |
| DomainLog.EraseDomainConsistent | src/avahi-domainbrowser.cpp:160-168 | gotRemoveDomain leaves exactly the old set minus the name, and emits domainRemoved only for a present name while it is present |
| DomainLog.InjectAllConsistent | src/avahi-domainbrowser.cpp:101-116 | injecting the static domains keeps the set and the notifications consistent |
| DomainLog.InjectAllDomains | src/avahi-domainbrowser.cpp:101-116 | after injection the set is the old set plus the decoded form of every injected name |
| DomainLog.InjectAllAppendsAdded | src/avahi-domainbrowser.cpp:101-116 | injection keeps earlier notifications and appends only domainAdded ones |
| DomainLog.InjectAllCount | src/avahi-domainbrowser.cpp:101-116 | injection emits exactly one notification per newly published name, so duplicates among the static names are silent |
| DomainLog.InjectRepeated | src/avahi-domainbrowser.cpp:150-158 | passing the same name to gotNewDomain k >= 1 times has the effect of passing it once |
| SessionFilter.ForeignSignalsIgnored | src/avahi-domainbrowser.cpp:119-148 | a stream of signals none of which is ours leaves the state unchanged |
| SessionFilter.NoSessionIgnoresAll | src/avahi-domainbrowser.cpp:84-93 | with the path left empty by an invalid create reply, every signal stream leaves the state unchanged |
| SessionFilter.OnlyOursMatter | src/avahi-domainbrowser.cpp:119-148 | removing other sessions' signals from a stream does not change the outcome |
| SessionFilter.RunConsistent | src/avahi-domainbrowser.cpp:119-168 | any signal stream keeps the set and the notifications consistent |
| SessionFilter.RepeatedItemNew | src/avahi-domainbrowser.cpp:119-129 | a repeated ItemNew for one domain publishes and notifies it once |
| SessionFilter.RemovedIsGone | src/avahi-domainbrowser.cpp:131-168 | after a matched ItemRemove the name is not published, and if it was, the last notification is its removal, reported while present |
| StaticDomains.EnvDomains | src/avahi-domainbrowser.cpp:102-104 | an empty variable gives no names; otherwise one more piece than there are ':' characters, none containing ':', and joining them with ':' gives the variable back |
| StaticDomains.EnvEmptyPieces | src/avahi-domainbrowser.cpp:103-107 | an empty name is injected exactly when the variable starts or ends with ':' or has two ':' side by side: empty pieces are passed on, not filtered |
| StaticDomains.CleanLineSpec | src/avahi-domainbrowser.cpp:114 | a line as readLine returns it gives a name with no white space at either end, no NUL and no newline |
| StaticDomains.ConfigDomainsShape | src/avahi-domainbrowser.cpp:110-115 | no name taken from the file has outer white space, a NUL or a newline |
| QtText.Split | src/avahi-domainbrowser.cpp:104 | split gives one more piece than there are separators, and no piece contains the separator |
| QtText.JoinSplit | src/avahi-domainbrowser.cpp:104 | joining the pieces of split with the separator gives the string back |
| QtText.SplitJoin | src/avahi-domainbrowser.cpp:104 | splitting the join of separator-free pieces gives the pieces back |
| QtText.SplitTrailing | src/avahi-domainbrowser.cpp:104 | a string ending with the separator splits into pieces whose last one is empty |
| QtText.SplitDoubled | src/avahi-domainbrowser.cpp:104 | two separators side by side give an empty piece after the first |
| QtText.TrimSpec | src/avahi-domainbrowser.cpp:114 | trimmed returns the part of the string after its leading white space, with only white space after it and no white space at either end |
| QtText.TrimPadded | src/avahi-domainbrowser.cpp:114 | trimming a core with no outer white space, padded with white space on both sides, gives the core |
| QtText.TrimIdempotent | src/avahi-domainbrowser.cpp:114 | trimming twice is trimming once |
| QtText.UpToNulSpec | src/avahi-domainbrowser.cpp:114 | fromUtf8 of a line's data keeps exactly the text before its first NUL |
| QtText.FirstLineShape | src/avahi-domainbrowser.cpp:112-114 | readLine returns a prefix of the unread text with a newline only as its last character, ending with one unless it reaches the end of the file |
| QtText.ReadLinesConcat | src/avahi-domainbrowser.cpp:112-115 | the lines read until atEnd are non-empty, together make up the whole file, and every line but the last ends with a newline |

## Left out

- D-Bus wiring (`src/avahi-domainbrowser.cpp:63-83`, `86-99`) is not modelled
  beyond the fact of each call. This covers the `connect` calls, the server
  proxy, the `DomainBrowser` proxy kept in `m_browser` for `Free`, and the
  transport's own failures. Subscriptions are assumed to succeed.
- The environment variable, the configuration directory lookup and the file
  reading are not modelled (`src/avahi-domainbrowser.cpp:102`, `110-112`).
  They are I/O, so their results are inputs.
  - The variable's value is taken as already decoded by `fromLocal8Bit`.
  - The file text is taken as already decoded from UTF-8, with text-mode line
    endings already translated.
- `DNSToDomain` is an opaque parameter. Nothing is claimed about ACE
  decoding or about `domainIsLocal`, whose bodies are not part of this model.
- The interface, protocol and flags arguments of the signals and of
  `gotNewDomain` / `gotRemoveDomain` are not modelled: the code never reads
  them.
- Destruction and the moc includes are not modelled
  (`src/avahi-domainbrowser.cpp:38-41`, `181-182`). Emission is modelled only
  as the ghost notification log, with no delivery to connected slots.
- `src/avahi-servicebrowser_p.h` is not modelled. It holds only declarations;
  the service browser and resolve bodies are not part of this model.
- `registerTypes` (`tier2/kdnssd/src/avahi_server_interface.cpp:32-39`) is
  not modelled: it is Qt metatype registration.
- SessionFilter.IsOurMsg: an assumption about `isOurMsg`, whose body is not
  part of this model. It is taken to match nothing while the recorded path is
  empty and otherwise to match exactly the signals sent from the recorded
  path. `SessionFilter.NoSessionIgnoresAll` depends on that assumption.
- `QtText.IsSpace` follows `QChar::isSpace` for the characters it lists. It
  does not track Unicode version differences in the space separator category.
