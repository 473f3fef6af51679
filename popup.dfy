/** The two storage updates of the extension's pop-up (src/popup.js): the
    trimmed API key save and adding the current site's host name to the
    blacklist. The current tab's host name is an input. */
module Popup {
  import opened Wrappers
  import opened JsString

  /** The list after the add action: unchanged when the domain is present,
      the domain appended otherwise. */
  function AddIfAbsent(blacklist: seq<string>, domain: string): (r: seq<string>)
    ensures domain in r
    ensures forall x :: x in r ==> x in blacklist || x == domain
  {
    if domain in blacklist then blacklist else blacklist + [domain]
  }

  /** No entry appears twice. */
  predicate NoDuplicates(list: seq<string>) {
    forall i, j :: 0 <= i < j < |list| ==> list[i] != list[j]
  }

  /** The existing entries stay first and in order, at most one entry is
      added, adding twice is adding once, and a duplicate-free list stays
      duplicate-free. */
  lemma AddIfAbsentKeepsList(blacklist: seq<string>, domain: string)
    ensures var r := AddIfAbsent(blacklist, domain);
      && r[..|blacklist|] == blacklist
      && |r| == |blacklist| + (if domain in blacklist then 0 else 1)
      && AddIfAbsent(r, domain) == r
      && (NoDuplicates(blacklist) ==> NoDuplicates(r))
  {
  }

  /** The `chrome.storage.sync` entries the pop-up reads and writes. */
  class SyncStorage {
    var apiKey: Option<string>
    var blacklist: Option<seq<string>>

    constructor (apiKey: Option<string>, blacklist: Option<seq<string>>)
      ensures this.apiKey == apiKey && this.blacklist == blacklist
    {
      this.apiKey := apiKey;
      this.blacklist := blacklist;
    }

    /** The save button: the trimmed input is stored as the key. */
    method SaveApiKey(input: string)
      modifies this
      ensures apiKey == Some(Trim(input)) && blacklist == old(blacklist)
    {
      apiKey := Some(Trim(input));
    }

    /** The add-domain button: a missing list counts as empty; an absent
        domain is appended and the list saved, a present one changes and
        saves nothing. */
    method AddDomain(domain: string) returns (saved: bool)
      modifies this
      ensures saved <==> domain !in old(blacklist).GetOr([])
      ensures saved ==> blacklist == Some(AddIfAbsent(old(blacklist).GetOr([]), domain))
      ensures !saved ==> blacklist == old(blacklist)
      ensures apiKey == old(apiKey)
    {
      var list := if blacklist.Some? then blacklist.value else [];
      if domain !in list {
        list := list + [domain];
        blacklist := Some(list);
        saved := true;
      } else {
        saved := false;
      }
    }
  }
}
