/** One page of the marketplace: the tab's session storage (the keys
    `userAddress` and `username`) and the connect button, if the page has
    one. The methods change the keys one write at a time, as `connectWallet`
    and the click handler do, and are proved to agree with the session
    transitions of module Wallet. */
module WalletPage {
  import opened Wrappers
  import opened Wallet

  class Page {
    /** sessionStorage "userAddress" */
    var userAddress: Option<string>
    /** sessionStorage "username" */
    var username: Option<string>
    /** Whether the page has an element `connectWalletBtn`. */
    const hasButton: bool
    /** That button's text (meaningless when there is no button). */
    var buttonText: string

    ghost function State(): Session
      reads this
    {
      Session(userAddress, username)
    }

    /** The page loads with whatever the tab's session storage holds; once the
        document is ready and the button exists, its text is refreshed. */
    constructor Load(address: Option<string>, name: Option<string>, hasButton: bool, initialText: string)
      ensures userAddress == address && username == name && this.hasButton == hasButton
      ensures buttonText == if hasButton then ButtonLabel(address, name) else initialText
    {
      userAddress, username := address, name;
      this.hasButton := hasButton;
      buttonText := initialText;
      new;
      UpdateConnectButton();
    }

    /** `updateConnectButton`: the button, if any, shows the label of the
        session keys; nothing else changes. */
    method UpdateConnectButton()
      modifies this`buttonText
      ensures buttonText == if hasButton then State().Label() else old(buttonText)
    {
      var address := userAddress;
      var name := username;
      if !hasButton {
        return;
      }
      if Truthy(address) {
        buttonText := if Truthy(name) then name.value else Abbreviate(address.value);
      } else {
        buttonText := ConnectLabel;
      }
    }

    /** `connectWallet`: the session keys end as ConnectStep says, and after a
        successful connect the button shows the new label. */
    method ConnectWallet(ethereumPresent: bool, providerPresent: bool, request: AccountsRequest,
                         lookup: Lookup, answer: Option<string>) returns (outcome: ConnectOutcome)
      modifies this
      ensures ConnectResult(State(), outcome)
              == ConnectStep(old(State()), ethereumPresent, providerPresent, request, lookup, answer)
      ensures buttonText == if outcome == Connected && hasButton then State().Label() else old(buttonText)
    {
      if !ethereumPresent {
        // the user is told to install a wallet; nothing is written
        return NoWallet;
      }
      match request {
        case Rejected =>
          // the rejection is caught, logged and reported before any write
          return ConnectFailed;
        case Granted(accounts) =>
          var address := FirstAccount(accounts);
          userAddress := Some(address);
          var ensName := ResolveEns(providerPresent, lookup);
          if Truthy(ensName) {
            username := ensName;
          } else {
            var name := username;
            if !Truthy(name) {
              name := if Truthy(answer) then answer else Some(UsernameFallback);
              username := name;
            }
          }
          UpdateConnectButton();
          outcome := Connected;
      }
    }

    /** The click handler bound to the connect button: a confirmed disconnect
        removes both keys and refreshes the button (the page then reloads);
        a declined one changes nothing; without an address it connects. */
    method OnConnectButtonClick(confirmed: bool, ethereumPresent: bool, providerPresent: bool,
                                request: AccountsRequest, lookup: Lookup, answer: Option<string>)
      requires hasButton
      modifies this
      ensures State() == ClickStep(old(State()), confirmed, ethereumPresent, providerPresent, request, lookup, answer)
      ensures Truthy(old(userAddress)) ==>
                buttonText == if confirmed then ConnectLabel else old(buttonText)
      ensures !Truthy(old(userAddress)) ==>
                buttonText == if ConnectStep(old(State()), ethereumPresent, providerPresent, request, lookup, answer).outcome == Connected
                              then State().Label() else old(buttonText)
    {
      var addr := userAddress;
      if Truthy(addr) {
        if confirmed {
          userAddress := None;
          username := None;
          UpdateConnectButton();
        }
      } else {
        var _ := ConnectWallet(ethereumPresent, providerPresent, request, lookup, answer);
      }
    }
  }

  /** A tab that connects with the name `alice.eth`, then disconnects: the
      button reads `alice.eth` in between and `Connect Wallet` at the end. */
  method ConnectThenDisconnect(address: string) returns (connected: string, disconnected: string)
    requires address != ""
    ensures connected == "alice.eth" && disconnected == ConnectLabel
  {
    var page := new Page.Load(None, None, true, "");
    var outcome := page.ConnectWallet(true, true, Granted([address]), LookupReturned(Some("alice.eth")), None);
    connected := page.buttonText;
    page.OnConnectButtonClick(true, true, true, Rejected, LookupThrew, None);
    disconnected := page.buttonText;
  }
}
