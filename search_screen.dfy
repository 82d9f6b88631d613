/**
 * The state of the contact list screen: the search text the user has typed.
 * The screen replaces it wholesale on every edit and on a press of the clear
 * button, and derives from it the list it shows and the count above the list.
 */
module SearchScreen {
  import opened JsString
  import opened ContactFilter

  /** The screen's only state: the current search text. */
  datatype Screen = Screen(searchText: string)

  /** The screen as first mounted: the search text starts empty. */
  function Initial(): (s: Screen)
    ensures s.searchText == []
  {
    Screen("")
  }

  /** The text field reports a new text: it replaces the search text. */
  function SetText(s: Screen, text: string): (s': Screen)
    ensures s'.searchText == text
  {
    s.(searchText := text)
  }

  /** The clear button is rendered only while the search text is non-empty. */
  predicate ClearButtonShown(s: Screen)
    ensures ClearButtonShown(s) <==> s != Initial()
  {
    |s.searchText| > 0
  }

  /** Pressing the clear button sets the search text back to empty. */
  function Clear(s: Screen): (s': Screen)
    ensures s' == Initial()
    ensures !ClearButtonShown(s')
  {
    s.(searchText := "")
  }

  /** The contacts the list shows: those whose name matches the current search text. */
  function Visible(contacts: seq<Contact>, s: Screen): (r: seq<Contact>)
    ensures |r| <= |contacts|
    ensures forall c :: c in r <==> c in contacts && Matches(c, s.searchText)
  {
    Filter(contacts, s.searchText)
  }

  /**
   * The number shown above the list: the length of the list shown, never
   * more than the number of contacts, and equal to it exactly when every
   * contact matches.
   */
  function ContactCount(contacts: seq<Contact>, s: Screen): (n: nat)
    ensures n == |Visible(contacts, s)|
    ensures n <= |contacts|
    ensures n == |contacts| <==> forall c :: c in contacts ==> Matches(c, s.searchText)
  {
    FilterKeepsAll(contacts, s.searchText);
    |Filter(contacts, s.searchText)|
  }

  /** Whenever the clear button is hidden, the whole list is shown and counted. */
  lemma HiddenClearShowsAll(contacts: seq<Contact>, s: Screen)
    requires !ClearButtonShown(s)
    ensures Visible(contacts, s) == contacts
    ensures ContactCount(contacts, s) == |contacts|
  {
    FilterEmptyQuery(contacts);
  }

  /** On first display nothing is filtered out and no clear button is shown. */
  lemma InitialShowsAll(contacts: seq<Contact>)
    ensures !ClearButtonShown(Initial())
    ensures Visible(contacts, Initial()) == contacts
  {
    HiddenClearShowsAll(contacts, Initial());
  }

  /** After a clear, whatever the text was, the whole list is back. */
  lemma ClearShowsAll(contacts: seq<Contact>, s: Screen)
    ensures Visible(contacts, Clear(s)) == contacts
    ensures ContactCount(contacts, Clear(s)) == |contacts|
  {
    HiddenClearShowsAll(contacts, Clear(s));
  }

  /**
   * Typing more around the current text (the new text includes the old one)
   * never brings a contact back: the new list is the old list filtered again.
   */
  lemma TypingNarrows(contacts: seq<Contact>, s: Screen, text: string)
    requires Includes(text, s.searchText)
    ensures Visible(contacts, SetText(s, text)) == Filter(Visible(contacts, s), text)
    ensures ContactCount(contacts, SetText(s, text)) <= ContactCount(contacts, s)
  {
    FilterNarrowing(contacts, s.searchText, text);
  }
}
