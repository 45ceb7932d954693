/**
 * Display language: the reduction of a parsed Accept-Language header to
 * Korean or English in the index route's loader, and the toggle that the
 * page keeps as component state afterwards.
 */
module Locale {
  import opened Wrappers
  import opened Js

  /** The two display languages, the string union "ko" | "en". */
  datatype Language = Ko | En

  /** One entry of the header parser's output (best entry first); `code`
      is the primary language subtag. */
  datatype LanguageEntry = LanguageEntry(code: Option<string>, region: Option<string>, quality: real)

  /** The loader's reduction: only the first entry's code is consulted;
      "ko" stays Korean, any other non-empty code is English, and an empty
      list or an absent or empty code defaults to Korean. */
  function Negotiate(entries: seq<LanguageEntry>): (l: Language)
    ensures l == En ==> |entries| > 0 && Truthy(entries[0].code) && entries[0].code.value != "ko"
  {
    if |entries| > 0 && Truthy(entries[0].code) then
      (if entries[0].code.value == "ko" then Ko else En)
    else Ko
  }

  /** Korean is the default when nothing usable was sent. */
  lemma NegotiateDefault(entries: seq<LanguageEntry>)
    requires |entries| == 0 || !Truthy(entries[0].code)
    ensures Negotiate(entries) == Ko
  {
  }

  /** The first entry decides: "ko" gives Korean, every other non-empty code English. */
  lemma NegotiateFirstCode(entries: seq<LanguageEntry>)
    requires |entries| > 0 && Truthy(entries[0].code)
    ensures Negotiate(entries) == Ko <==> entries[0].code.value == "ko"
  {
  }

  /** Entries after the first never change the result. */
  lemma NegotiateIgnoresLaterEntries(first: LanguageEntry, rest: seq<LanguageEntry>, other: seq<LanguageEntry>)
    ensures Negotiate([first] + rest) == Negotiate([first] + other)
  {
    assert ([first] + rest)[0] == first == ([first] + other)[0];
  }

  /** `en-US,en;q=0.9` parses to codes "en", "en" and negotiates English;
      `ko-KR` negotiates Korean; an absent header parses to nothing and
      negotiates Korean. */
  lemma NegotiateExamples()
    ensures Negotiate([LanguageEntry(Some("en"), Some("US"), 1.0), LanguageEntry(Some("en"), None, 0.9)]) == En
    ensures Negotiate([LanguageEntry(Some("ko"), Some("KR"), 1.0)]) == Ko
    ensures Negotiate([]) == Ko
  {
  }

  /** The click handler's flip: Korean becomes English and every other value Korean. */
  function Flip(l: Language): (r: Language)
    ensures r != l
  {
    if l == Ko then En else Ko
  }

  lemma FlipTwice(l: Language)
    ensures Flip(Flip(l)) == l
  {
  }

  /** The language after `n` clicks: only the parity of `n` matters. */
  function FlipTimes(l: Language, n: nat): (r: Language)
    ensures r == if n % 2 == 0 then l else Flip(l)
  {
    if n == 0 then l else Flip(FlipTimes(l, n - 1))
  }

  /** The page's `currentLanguage` state, seeded with the negotiated language. */
  class LanguageSwitch {
    var current: Language

    constructor (negotiated: Language)
      ensures current == negotiated
    {
      current := negotiated;
    }

    /** The onClick handler of the language button. */
    method Toggle()
      modifies this
      ensures current == Flip(old(current))
      ensures current != old(current)
    {
      current := Flip(current);
    }
  }
}
