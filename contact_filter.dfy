/**
 * The contact records of the list screen and the search filter that derives
 * `filteredContacts` from them: a contact is kept when its name, lower-cased,
 * includes the lower-cased search text.
 */
module ContactFilter {
  import opened JsString

  /** One record of the bundled contact list; every field is a string. */
  datatype Contact = Contact(id: string, name: string, phone: string, email: string, avatar: string)

  /**
   * The filter's predicate: the contact's lower-cased name includes the
   * lower-cased search text, that is, the search text occurs somewhere in the
   * name when case is ignored.
   */
  predicate Matches(c: Contact, searchText: string)
    ensures Matches(c, searchText) <==> exists i :: FoldedOccursAt(c.name, searchText, i)
  {
    IncludesFolded(c.name, searchText);
    Includes(Lower(c.name), Lower(searchText))
  }

  /**
   * `contacts.filter(...)` with the predicate above: a new list of the
   * matching contacts, in their original order.
   */
  function Filter(contacts: seq<Contact>, searchText: string): (r: seq<Contact>)
    ensures |r| <= |contacts|
    ensures forall c :: c in r <==> c in contacts && Matches(c, searchText)
  {
    if contacts == [] then []
    else if Matches(contacts[0], searchText) then [contacts[0]] + Filter(contacts[1..], searchText)
    else Filter(contacts[1..], searchText)
  }

  /** Positions listed in strictly increasing order, so none repeats and none is out of order. */
  ghost predicate Increasing(idx: seq<nat>) {
    forall k, l :: 0 <= k < l < |idx| ==> idx[k] < idx[l]
  }

  /**
   * The positions of a list with one more element in front, given those of
   * its tail: every tail position moves up by one, and position 0 is added
   * in front when `keepHead` holds.
   */
  ghost function Shifted(rest: seq<nat>, keepHead: bool): (idx: seq<nat>)
    ensures |idx| == |rest| + (if keepHead then 1 else 0)
    ensures keepHead ==> idx[0] == 0
    ensures forall k :: |idx| - |rest| <= k < |idx| ==> idx[k] == rest[k - (|idx| - |rest|)] + 1
  {
    var shifted := seq(|rest|, k requires 0 <= k < |rest| => rest[k] + 1);
    if keepHead then [0] + shifted else shifted
  }

  /** Shifting keeps the positions in increasing order. */
  lemma ShiftedIncreasing(rest: seq<nat>, keepHead: bool)
    requires Increasing(rest)
    ensures Increasing(Shifted(rest, keepHead))
  {
    var idx := Shifted(rest, keepHead);
    var off := |idx| - |rest|;
    forall k, l | 0 <= k < l < |idx|
      ensures idx[k] < idx[l]
    {
      assert idx[l] == rest[l - off] + 1;
      if k >= off {
        assert idx[k] == rest[k - off] + 1;
      }
    }
  }

  /** Which positions the shifted list holds. */
  lemma ShiftedMembers(rest: seq<nat>, keepHead: bool)
    ensures 0 in Shifted(rest, keepHead) <==> keepHead
    ensures forall j :: 1 <= j ==> (j in Shifted(rest, keepHead) <==> j - 1 in rest)
  {
    var idx := Shifted(rest, keepHead);
    var off := |idx| - |rest|;
    forall j | 0 <= j
      ensures j in idx <==> if j == 0 then keepHead else j - 1 in rest
    {
      if j in idx {
        var k :| 0 <= k < |idx| && idx[k] == j;
        if k >= off {
          assert rest[k - off] == j - 1;
        }
      }
      if j > 0 && j - 1 in rest {
        var k :| 0 <= k < |rest| && rest[k] == j - 1;
        assert idx[k + off] == j;
      }
    }
  }

  /** The positions of the contacts the filter keeps, listed from the front. */
  ghost function Positions(contacts: seq<Contact>, searchText: string): seq<nat> {
    if contacts == [] then []
    else Shifted(Positions(contacts[1..], searchText), Matches(contacts[0], searchText))
  }

  /** The kept positions are listed in increasing order. */
  lemma {:induction false} PositionsIncreasing(contacts: seq<Contact>, searchText: string)
    ensures Increasing(Positions(contacts, searchText))
  {
    if contacts != [] {
      var rest := Positions(contacts[1..], searchText);
      PositionsIncreasing(contacts[1..], searchText);
      ShiftedIncreasing(rest, Matches(contacts[0], searchText));
    }
  }

  /** A position is kept exactly when the contact there matches. */
  lemma {:induction false} PositionsExact(contacts: seq<Contact>, searchText: string)
    ensures forall j :: 0 <= j < |contacts| ==> (j in Positions(contacts, searchText) <==> Matches(contacts[j], searchText))
  {
    if contacts != [] {
      var tail := contacts[1..];
      PositionsExact(tail, searchText);
      ShiftedMembers(Positions(tail, searchText), Matches(contacts[0], searchText));
      forall j | 1 <= j < |contacts|
        ensures j in Positions(contacts, searchText) <==> Matches(contacts[j], searchText)
      {
        assert contacts[j] == tail[j - 1];
      }
    }
  }

  /** Selecting by shifted positions from a list with one more element in front. */
  lemma ShiftedSelect(r: seq<Contact>, fr: seq<Contact>, head: Contact, tail: seq<Contact>, rest: seq<nat>, keepHead: bool)
    requires r == if keepHead then [head] + fr else fr
    requires |rest| == |fr|
    requires forall k :: 0 <= k < |rest| ==> rest[k] < |tail| && fr[k] == tail[rest[k]]
    ensures |Shifted(rest, keepHead)| == |r|
    ensures forall k :: 0 <= k < |r| ==> Shifted(rest, keepHead)[k] < |tail| + 1 && r[k] == ([head] + tail)[Shifted(rest, keepHead)[k]]
  {
    var idx := Shifted(rest, keepHead);
    var off := |idx| - |rest|;
    forall k | 0 <= k < |r|
      ensures idx[k] < |tail| + 1 && r[k] == ([head] + tail)[idx[k]]
    {
      if k >= off {
        assert idx[k] == rest[k - off] + 1;
        assert r[k] == fr[k - off];
      }
    }
  }

  /** The filter's result is the input read at the kept positions. */
  lemma {:induction false} PositionsSelect(contacts: seq<Contact>, searchText: string)
    ensures |Positions(contacts, searchText)| == |Filter(contacts, searchText)|
    ensures forall k :: 0 <= k < |Positions(contacts, searchText)| ==>
      Positions(contacts, searchText)[k] < |contacts| &&
      Filter(contacts, searchText)[k] == contacts[Positions(contacts, searchText)[k]]
  {
    if contacts != [] {
      var head, tail := contacts[0], contacts[1..];
      PositionsSelect(tail, searchText);
      ShiftedSelect(Filter(contacts, searchText), Filter(tail, searchText), head, tail,
        Positions(tail, searchText), Matches(head, searchText));
      assert [head] + tail == contacts;
    }
  }

  /**
   * Order: the result is exactly the contacts at the matching positions of
   * the input, taken in increasing order of position.
   */
  lemma FilterSelects(contacts: seq<Contact>, searchText: string) returns (idx: seq<nat>)
    ensures |idx| == |Filter(contacts, searchText)|
    ensures forall k :: 0 <= k < |idx| ==> idx[k] < |contacts| && Filter(contacts, searchText)[k] == contacts[idx[k]]
    ensures Increasing(idx)
    ensures forall j :: 0 <= j < |contacts| ==> (j in idx <==> Matches(contacts[j], searchText))
  {
    idx := Positions(contacts, searchText);
    PositionsIncreasing(contacts, searchText);
    PositionsExact(contacts, searchText);
    PositionsSelect(contacts, searchText);
  }

  /**
   * No duplicates are introduced and no match is dropped: each contact
   * occurs in the result as often as in the input when it matches, and
   * not at all otherwise.
   */
  lemma {:induction false} FilterMultiplicity(contacts: seq<Contact>, searchText: string, c: Contact)
    ensures multiset(Filter(contacts, searchText))[c] == if Matches(c, searchText) then multiset(contacts)[c] else 0
  {
    if contacts != [] {
      FilterMultiplicity(contacts[1..], searchText, c);
      assert contacts == [contacts[0]] + contacts[1..];
    }
  }

  /** The empty search text (the initial one) keeps every contact. */
  lemma {:induction false} FilterEmptyQuery(contacts: seq<Contact>)
    ensures Filter(contacts, "") == contacts
  {
    if contacts != [] {
      IncludesEmpty(Lower(contacts[0].name));
      FilterEmptyQuery(contacts[1..]);
    }
  }

  /** The list keeps its full length exactly when every contact matches. */
  lemma {:induction false} FilterKeepsAll(contacts: seq<Contact>, searchText: string)
    ensures |Filter(contacts, searchText)| == |contacts| <==> forall c :: c in contacts ==> Matches(c, searchText)
  {
    if contacts != [] {
      FilterKeepsAll(contacts[1..], searchText);
      if forall c :: c in contacts[1..] ==> Matches(c, searchText) {
        if Matches(contacts[0], searchText) {
          assert forall c :: c in contacts ==> c == contacts[0] || c in contacts[1..];
        }
      }
      if !Matches(contacts[0], searchText) {
        assert |Filter(contacts[1..], searchText)| <= |contacts[1..]|;
      }
    }
  }

  /** Two search texts with the same lower-cased form give identical results. */
  lemma {:induction false} FilterCaseInsensitive(contacts: seq<Contact>, q1: string, q2: string)
    requires Lower(q1) == Lower(q2)
    ensures Filter(contacts, q1) == Filter(contacts, q2)
  {
    if contacts != [] {
      FilterCaseInsensitive(contacts[1..], q1, q2);
    }
  }

  /** Typing the search text in capitals changes nothing. */
  lemma FilterLowerQuery(contacts: seq<Contact>, searchText: string)
    ensures Filter(contacts, Lower(searchText)) == Filter(contacts, searchText)
  {
    LowerIdempotent(searchText);
    FilterCaseInsensitive(contacts, Lower(searchText), searchText);
  }

  /** Filtering a filtered list again with the same search text changes nothing. */
  lemma {:induction false} FilterIdempotent(contacts: seq<Contact>, searchText: string)
    ensures Filter(Filter(contacts, searchText), searchText) == Filter(contacts, searchText)
  {
    if contacts != [] {
      FilterIdempotent(contacts[1..], searchText);
    }
  }

  /**
   * Narrowing: when the new search text includes the old one (the user typed
   * more characters around it), the new result is the old result filtered
   * again, so it only loses contacts.
   */
  lemma {:induction false} FilterNarrowing(contacts: seq<Contact>, older: string, newer: string)
    requires Includes(newer, older)
    ensures Filter(Filter(contacts, older), newer) == Filter(contacts, newer)
    ensures |Filter(contacts, newer)| <= |Filter(contacts, older)|
  {
    if contacts != [] {
      var c := contacts[0];
      if Matches(c, newer) {
        IncludesLower(newer, older);
        IncludesTransitive(Lower(c.name), Lower(newer), Lower(older));
      }
      FilterNarrowing(contacts[1..], older, newer);
    }
  }
}
