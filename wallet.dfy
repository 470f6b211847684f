/** The wallet session of one browser tab, as pure values: the two
    session-storage keys `userAddress` and `username`, the ENS name
    resolver, the connect button's text, and what a connect or a click on
    the button does to the session. Every answer from outside the page (the
    wallet's account list, the ENS lookup, `prompt`, `confirm`) is a
    parameter. */
module Wallet {
  import opened Wrappers

  /** JavaScript truthiness of a storage read or host answer: `null` and
      the empty string are both falsy. */
  predicate Truthy(s: Option<string>) {
    s.Some? && s.value != ""
  }

  // ---------------------------------------------------------------------
  // ENS resolution

  /** How `provider.lookupAddress(address)` settled. */
  datatype Lookup = LookupThrew | LookupReturned(name: Option<string>)

  /** `resolveENS`: a name only when there is a provider and the lookup
      returned a non-empty one; every other case is "no name". */
  function ResolveEns(providerPresent: bool, lookup: Lookup): (name: Option<string>)
    ensures name.Some? <==> providerPresent && lookup.LookupReturned? && Truthy(lookup.name)
    ensures name.Some? ==> name == lookup.name && name.value != ""
  {
    if !providerPresent then None
    else match lookup
      case LookupThrew => None
      case LookupReturned(found) => if Truthy(found) then found else None
  }

  // ---------------------------------------------------------------------
  // The connect button's text

  const ConnectLabel: string := "Connect Wallet"
  const UsernameFallback: string := "User"

  /** An index argument of `String.prototype.substring`, clamped into the string. */
  function ClampIndex(i: int, length: nat): (c: nat)
    ensures c <= length
    ensures 0 <= i <= length ==> c == i
    ensures i < 0 ==> c == 0
    ensures length < i ==> c == length
  {
    if i < 0 then 0 else if i > length then length else i
  }

  /** `s.substring(start, end)`: both ends clamped into the string and
      swapped when given in reverse order. */
  function JsSubstring(s: string, start: int, end: int): (r: string)
    ensures |r| <= |s|
    ensures 0 <= start <= end <= |s| ==> r == s[start..end]
  {
    var a, b := ClampIndex(start, |s|), ClampIndex(end, |s|);
    if a <= b then s[a..b] else s[b..a]
  }

  /** `substring` does not care in which order its two indices come. */
  lemma JsSubstringSymmetric(s: string, start: int, end: int)
    ensures JsSubstring(s, start, end) == JsSubstring(s, end, start)
  {
  }

  /** The short form of an address, cut with `substring`: the first six characters, an ellipsis, the last four; a short address
      contributes all it has to either end. */
  function Abbreviate(address: string): (text: string)
    ensures var head := if |address| < 6 then |address| else 6;
            var tail := if |address| < 4 then 0 else |address| - 4;
            text == address[..head] + "..." + address[tail..]
  {
    JsSubstring(address, 0, 6) + "..." + JsSubstring(address, |address| - 4, |address|)
  }

  /** `updateConnectButton`'s text: a prompt to connect without an address,
      otherwise the username, or the abbreviated address when there is none.
      The text is never empty. */
  function ButtonLabel(address: Option<string>, username: Option<string>): (text: string)
    ensures text != ""
    ensures !Truthy(address) ==> text == ConnectLabel
    ensures Truthy(address) && Truthy(username) ==> text == username.value
    ensures Truthy(address) && !Truthy(username) ==> text == Abbreviate(address.value)
  {
    if Truthy(address) then
      if Truthy(username) then username.value else Abbreviate(address.value)
    else ConnectLabel
  }

  /** A long address shows as 13 characters: its first six, `...`, its last four. */
  lemma AbbreviateLongAddress(address: string)
    requires |address| >= 10
    ensures |Abbreviate(address)| == 13
    ensures Abbreviate(address)[..6] == address[..6]
    ensures Abbreviate(address)[6..9] == "..."
    ensures Abbreviate(address)[9..] == address[|address| - 4..]
  {
    var text := Abbreviate(address);
    assert text == address[..6] + "..." + address[|address| - 4..];
    assert text[..6] == address[..6];
    assert text[9..] == address[|address| - 4..];
  }

  /** An address of at most four characters appears whole on both sides. */
  lemma AbbreviateShortAddress(address: string)
    requires |address| <= 4
    ensures Abbreviate(address) == address + "..." + address
  {
    assert address[..|address|] == address && address[0..] == address;
  }

  /** A 42-character address without a name shows as `0x1234...5678`. */
  lemma LabelOfUnnamedAddress()
    ensures ButtonLabel(Some("0x1234" + "567890abcdef1234567890abcdef1234" + "5678"), None)
            == "0x1234" + "..." + "5678"
  {
    var head, middle, tail := "0x1234", "567890abcdef1234567890abcdef1234", "5678";
    var address := head + middle + tail;
    assert |address| == 42;
    assert address[..6] == head;
    assert address[38..] == tail;
  }

  // ---------------------------------------------------------------------
  // Session transitions

  /** The two session-storage keys; `None` when the key is absent. */
  datatype Session = Session(userAddress: Option<string>, username: Option<string>)
  {
    /** A username is only held together with an address. */
    predicate Coherent() {
      username.Some? ==> userAddress.Some?
    }

    /** The connect button's text for this session. */
    function Label(): string {
      ButtonLabel(userAddress, username)
    }
  }

  const Disconnected: Session := Session(None, None)

  /** How the wallet's request for accounts (`eth_requestAccounts`) settled. */
  datatype AccountsRequest = Rejected | Granted(accounts: seq<string>)

  /** What the user is told after a connect. */
  datatype ConnectOutcome = NoWallet | ConnectFailed | Connected

  datatype ConnectResult = ConnectResult(session: Session, outcome: ConnectOutcome)

  /** `accounts[0]` as session storage keeps it: an empty list gives
      `undefined`, stored as the text "undefined". */
  function FirstAccount(accounts: seq<string>): (address: string)
    ensures |accounts| > 0 ==> address == accounts[0]
    ensures |accounts| == 0 ==> address == "undefined"
  {
    if |accounts| > 0 then accounts[0] else "undefined"
  }

  /** The username a connect leaves behind: a resolved ENS name wins, then a
      username already held, then the typed answer, then the fallback. */
  function ChooseUsername(ens: Option<string>, stored: Option<string>, answer: Option<string>): (name: string)
    ensures name != ""
    ensures name == UsernameFallback || Some(name) in {ens, stored, answer}
  {
    if Truthy(ens) then ens.value
    else if Truthy(stored) then stored.value
    else if Truthy(answer) then answer.value
    else UsernameFallback
  }

  /** `connectWallet` on a session: without a wallet nothing happens; a
      rejected account request is reported and changes nothing; otherwise the
      address becomes the first account and a non-empty username is held. */
  function ConnectStep(s: Session, ethereumPresent: bool, providerPresent: bool,
                       request: AccountsRequest, lookup: Lookup, answer: Option<string>): (r: ConnectResult)
    ensures r.outcome == (if !ethereumPresent then NoWallet
                          else if request.Rejected? then ConnectFailed
                          else Connected)
    ensures r.outcome != Connected ==> r.session == s
    ensures r.outcome == Connected ==>
              r.session.userAddress == Some(FirstAccount(request.accounts)) && Truthy(r.session.username)
  {
    if !ethereumPresent then ConnectResult(s, NoWallet)
    else match request
      case Rejected => ConnectResult(s, ConnectFailed)
      case Granted(accounts) =>
        var ens := ResolveEns(providerPresent, lookup);
        var name := ChooseUsername(ens, s.username, answer);
        ConnectResult(Session(Some(FirstAccount(accounts)), Some(name)), Connected)
  }

  /** The click handler on the connect button: with an address held, a
      confirmed disconnect clears both keys and a declined one changes
      nothing; without one, the click connects. */
  function ClickStep(s: Session, confirmed: bool, ethereumPresent: bool, providerPresent: bool,
                     request: AccountsRequest, lookup: Lookup, answer: Option<string>): (r: Session)
    ensures Truthy(s.userAddress) ==> (r.userAddress.None? <==> confirmed)
    ensures Truthy(s.userAddress) && confirmed ==> r.username.None?
    ensures Truthy(s.userAddress) && !confirmed ==> r == s
    ensures !Truthy(s.userAddress) ==>
              r == ConnectStep(s, ethereumPresent, providerPresent, request, lookup, answer).session
  {
    if Truthy(s.userAddress) then
      if confirmed then Disconnected else s
    else ConnectStep(s, ethereumPresent, providerPresent, request, lookup, answer).session
  }

  /** The username a successful connect leaves: a non-empty name from the
      provider's lookup wins; without one, a username already held stays;
      without that, the prompt answer if non-empty, else `User`. */
  lemma ConnectUsernamePriority(s: Session, providerPresent: bool, accounts: seq<string>,
                                lookup: Lookup, answer: Option<string>)
    ensures var r := ConnectStep(s, true, providerPresent, Granted(accounts), lookup, answer).session;
            var named := providerPresent && lookup.LookupReturned? && Truthy(lookup.name);
            (named ==> r.username == lookup.name)
            && (!named && Truthy(s.username) ==> r.username == s.username)
            && (!named && !Truthy(s.username) && Truthy(answer) ==> r.username == answer)
            && (!named && !Truthy(s.username) && !Truthy(answer) ==> r.username == Some(UsernameFallback))
  {
  }

  /** After a successful connect to a non-empty account, the button shows the
      username the connect chose. */
  lemma ConnectedLabelIsUsername(s: Session, providerPresent: bool, accounts: seq<string>,
                                 lookup: Lookup, answer: Option<string>)
    requires |accounts| > 0 && accounts[0] != ""
    ensures var r := ConnectStep(s, true, providerPresent, Granted(accounts), lookup, answer);
            r.session.Label() == r.session.username.value
            && r.session.username.value == ChooseUsername(ResolveEns(providerPresent, lookup), s.username, answer)
  {
  }

  /** A connect that resolves `alice.eth` shows `alice.eth` on the button,
      whatever username was held before. */
  lemma ConnectWithEnsNameShowsIt(s: Session, accounts: seq<string>, answer: Option<string>)
    requires |accounts| > 0 && accounts[0] != ""
    ensures ConnectStep(s, true, true, Granted(accounts), LookupReturned(Some("alice.eth")), answer)
              .session.Label() == "alice.eth"
  {
  }

  /** With a username already held and no ENS name, a reconnect keeps that
      username and never consults the prompt. */
  lemma ReconnectKeepsUsername(s: Session, providerPresent: bool, accounts: seq<string>,
                               lookup: Lookup, answer1: Option<string>, answer2: Option<string>)
    requires Truthy(s.username) && ResolveEns(providerPresent, lookup).None?
    ensures ConnectStep(s, true, providerPresent, Granted(accounts), lookup, answer1)
            == ConnectStep(s, true, providerPresent, Granted(accounts), lookup, answer2)
    ensures ConnectStep(s, true, providerPresent, Granted(accounts), lookup, answer1).session.username == s.username
  {
  }

  /** Connecting and clicking keep a username only alongside an address. */
  lemma StepsKeepSessionCoherent(s: Session, confirmed: bool, ethereumPresent: bool, providerPresent: bool,
                                 request: AccountsRequest, lookup: Lookup, answer: Option<string>)
    requires s.Coherent()
    ensures ConnectStep(s, ethereumPresent, providerPresent, request, lookup, answer).session.Coherent()
    ensures ClickStep(s, confirmed, ethereumPresent, providerPresent, request, lookup, answer).Coherent()
  {
  }

  /** A click while connected: confirming clears both keys and the button asks
      to connect again; declining leaves both keys as they were. */
  lemma ClickWhileConnected(s: Session, confirmed: bool, ethereumPresent: bool, providerPresent: bool,
                            request: AccountsRequest, lookup: Lookup, answer: Option<string>)
    requires Truthy(s.userAddress)
    ensures var r := ClickStep(s, confirmed, ethereumPresent, providerPresent, request, lookup, answer);
            (confirmed ==> r.userAddress.None? && r.username.None? && r.Label() == ConnectLabel)
            && (!confirmed ==> r == s)
  {
  }

  /** A click without an address (absent or empty) is a connect, and the
      confirmation answer plays no part. */
  lemma ClickWhileDisconnectedConnects(s: Session, confirmed: bool, ethereumPresent: bool, providerPresent: bool,
                                       request: AccountsRequest, lookup: Lookup, answer: Option<string>)
    requires !Truthy(s.userAddress)
    ensures ClickStep(s, confirmed, ethereumPresent, providerPresent, request, lookup, answer)
            == ConnectStep(s, ethereumPresent, providerPresent, request, lookup, answer).session
  {
  }
}
