/**
 * The contact store: a text file of `name:phone` lines and the
 * notifications it raises on every successful change. The file is the
 * field `lines`; each operation is one atomic step that reads it, and the
 * mutating ones then append to it or rewrite it whole.
 */
module Implementation {
  import opened Contacts
  import opened ContactFile

  /** The colour handed to the change callback. */
  datatype Color = Green | Yellow | Red

  /** One call of the change callback: the contact's name and a colour. */
  datatype Notification = Notification(message: string, color: Color)

  /** How an operation without a result value ends: done, or failed with an error. */
  datatype Outcome = Done | Failed(error: Error)

  class PhonebookImplementation {
    /** The contacts file, line by line. */
    var lines: seq<string>
    /** Every change notification raised so far, oldest first. */
    var notifications: seq<Notification>

    /** A store over a freshly created, empty file. */
    constructor ()
      ensures lines == [] && notifications == []
    {
      lines := [];
      notifications := [];
    }

    /**
     * Reads the file line by line into contacts, stopping at the first
     * empty line; a line without `:` before that point fails the read.
     */
    method ReadContact() returns (r: Result<seq<Contact>>)
      ensures r == ReadFile(lines)
    {
      var contacts: seq<Contact> := [];
      var i := 0;
      while i < |lines|
        invariant 0 <= i <= FirstBlank(lines)
        invariant |contacts| == i
        invariant forall j :: 0 <= j < i ==> ParseLine(lines[j]) == Some(contacts[j])
      {
        var line := lines[i];
        if line == "" {
          assert Readable(lines);
          assert contacts == ReadFile(lines).value;
          return Ok(contacts);
        }
        var contactData := Text.Split(line, ':');
        if |contactData| < 2 {
          return Err(MissingSeparator);
        }
        contacts := contacts + [Contact(contactData[0], contactData[1])];
        i := i + 1;
      }
      assert Readable(lines);
      assert contacts == ReadFile(lines).value;
      return Ok(contacts);
    }

    /**
     * Adds a contact unless an equal one is already among those read:
     * appends its line at the physical end of the file and notifies in
     * green. A failed read fails the call before anything is written.
     */
    method CreateContact(contact: Contact) returns (r: Result<bool>)
      modifies this
      ensures ReadFile(old(lines)).Err? ==> r == Err(MissingSeparator) && unchanged(this)
      ensures ReadFile(old(lines)).Ok? && contact in ReadFile(old(lines)).value ==>
                r == Ok(false) && unchanged(this)
      ensures ReadFile(old(lines)).Ok? && contact !in ReadFile(old(lines)).value ==>
                && r == Ok(true)
                && lines == old(lines) + [Serialize(contact)]
                && notifications == old(notifications) + [Notification(contact.name, Green)]
      ensures r == Ok(true) && "" !in old(lines) && Clean(contact) ==>
                ReadFile(lines) == Ok(ReadFile(old(lines)).value + [contact])
      ensures r == Ok(true) && "" !in old(lines) ==>
                ReadFile(lines) == Ok(ReadFile(old(lines)).value + [StoredForm(contact)])
      ensures r == Ok(true) && "" in old(lines) ==> ReadFile(lines) == ReadFile(old(lines))
    {
      var contacts := ReadContact();
      if contacts.Err? {
        return Err(contacts.error);
      }
      if contact in contacts.value {
        return Ok(false);
      }
      ghost var before := lines;
      lines := lines + [Serialize(contact)];
      notifications := notifications + [Notification(contact.name, Green)];
      if "" !in before {
        AppendVisible(before, Serialize(contact));
        assert Clean(contact) ==> StoredForm(contact) == contact;
      }
      if "" in before {
        AppendInvisible(before, Serialize(contact));
      }
      return Ok(true);
    }

    /**
     * Replaces the contact at index `id` of the list read and rewrites the
     * whole file from that list; notifies the new name in yellow. A failed
     * read or an index outside the list fails the call before anything is
     * written.
     */
    method UpdateContact(id: int, contact: Contact) returns (r: Outcome)
      modifies this
      ensures ReadFile(old(lines)).Err? ==> r == Failed(MissingSeparator) && unchanged(this)
      ensures ReadFile(old(lines)).Ok? && !(0 <= id < |ReadFile(old(lines)).value|) ==>
                r == Failed(IndexOutOfRange) && unchanged(this)
      ensures ReadFile(old(lines)).Ok? && 0 <= id < |ReadFile(old(lines)).value| ==>
                && r == Done
                && lines == Render(ReadFile(old(lines)).value[id := contact])
                && notifications == old(notifications) + [Notification(contact.name, Yellow)]
      ensures r == Done && Clean(contact) ==>
                ReadFile(lines) == Ok(ReadFile(old(lines)).value[id := contact])
      ensures r == Done ==>
                ReadFile(lines) == Ok(ReadFile(old(lines)).value[id := StoredForm(contact)])
    {
      var read := ReadContact();
      if read.Err? {
        return Failed(read.error);
      }
      var contacts := read.value;
      if !(0 <= id < |contacts|) {
        return Failed(IndexOutOfRange);
      }
      contacts := contacts[id := contact];
      RewriteFile(contacts);
      notifications := notifications + [Notification(contacts[id].name, Yellow)];
      UpdateReadBack(old(lines), id, contact);
      return Done;
    }

    /**
     * Removes the contact found at index `id` of the list read (the list
     * loses its first element equal to it) and rewrites the whole file;
     * notifies the removed name in red. A failed read or an index outside
     * the list fails the call before anything is written.
     */
    method DeleteContact(id: int) returns (r: Outcome)
      modifies this
      ensures ReadFile(old(lines)).Err? ==> r == Failed(MissingSeparator) && unchanged(this)
      ensures ReadFile(old(lines)).Ok? && !(0 <= id < |ReadFile(old(lines)).value|) ==>
                r == Failed(IndexOutOfRange) && unchanged(this)
      ensures ReadFile(old(lines)).Ok? && 0 <= id < |ReadFile(old(lines)).value| ==>
                var cs := ReadFile(old(lines)).value;
                && r == Done
                && lines == Render(RemoveFirst(cs, cs[id]))
                && notifications == old(notifications) + [Notification(cs[id].name, Red)]
      ensures r == Done ==>
                var cs := ReadFile(old(lines)).value;
                && ReadFile(lines) == Ok(RemoveFirst(cs, cs[id]))
                && |ReadFile(lines).value| == |cs| - 1
    {
      var read := ReadContact();
      if read.Err? {
        return Failed(read.error);
      }
      var contacts := read.value;
      if !(0 <= id < |contacts|) {
        return Failed(IndexOutOfRange);
      }
      var contactToRemove := contacts[id];
      contacts := RemoveFirst(contacts, contactToRemove);
      RewriteFile(contacts);
      notifications := notifications + [Notification(contactToRemove.name, Red)];
      DeleteReadBack(old(lines), id);
      return Done;
    }

    /** Truncates the file and writes one serialised line per contact, in list order. */
    method RewriteFile(contacts: seq<Contact>)
      modifies this`lines
      ensures lines == Render(contacts)
    {
      lines := [];
      for i := 0 to |contacts|
        invariant |lines| == i
        invariant forall j :: 0 <= j < i ==> lines[j] == Serialize(contacts[j])
      {
        lines := lines + [Serialize(contacts[i])];
      }
    }
  }

  /**
   * After an update at a valid index, the file reads back as the old list
   * with only that element replaced, by the contact as its line parses
   * back (the contact itself when its name and phone hold no `:`).
   */
  lemma UpdateReadBack(lines: seq<string>, id: nat, contact: Contact)
    requires ReadFile(lines).Ok? && id < |ReadFile(lines).value|
    ensures var cs := ReadFile(lines).value;
            ReadFile(Render(cs[id := contact])) == Ok(cs[id := StoredForm(contact)])
  {
    var cs := ReadFile(lines).value;
    ReadContactsClean(lines);
    RenderReadBackAny(cs[id := contact]);
    var got, want := StoredForms(cs[id := contact]), cs[id := StoredForm(contact)];
    forall j | 0 <= j < |cs| ensures got[j] == want[j] {
      if j != id { assert cs[j] in cs; }
    }
    assert got == want;
  }

  /**
   * After a delete at a valid index, the file reads back as the old list
   * with one copy of the contact at that index removed.
   */
  lemma DeleteReadBack(lines: seq<string>, id: nat)
    requires ReadFile(lines).Ok? && id < |ReadFile(lines).value|
    ensures var cs := ReadFile(lines).value;
            && ReadFile(Render(RemoveFirst(cs, cs[id]))) == Ok(RemoveFirst(cs, cs[id]))
            && |RemoveFirst(cs, cs[id])| == |cs| - 1
  {
    var cs := ReadFile(lines).value;
    var rest := RemoveFirst(cs, cs[id]);
    ReadContactsClean(lines);
    RemoveAt(cs, id);
    forall c | c in rest ensures Clean(c) {
      assert c in multiset(rest);
      assert c in cs;
    }
    RenderReadBack(rest);
  }

  /** No contact occurs twice in the list. */
  predicate NoDuplicates(cs: seq<Contact>) {
    forall i, j :: 0 <= i < j < |cs| ==> cs[i] != cs[j]
  }

  /**
   * A create whose duplicate test passes keeps a duplicate-free read
   * duplicate-free, as long as the contact's name and phone hold no `:`.
   */
  lemma CreateKeepsNoDuplicates(lines: seq<string>, contact: Contact)
    requires ReadFile(lines).Ok? && NoDuplicates(ReadFile(lines).value)
    requires contact !in ReadFile(lines).value
    requires Clean(contact)
    ensures ReadFile(lines + [Serialize(contact)]).Ok?
    ensures NoDuplicates(ReadFile(lines + [Serialize(contact)]).value)
  {
    if "" in lines {
      AppendInvisible(lines, Serialize(contact));
    } else {
      SerializeRoundTrip(contact);
      AppendVisible(lines, Serialize(contact));
    }
  }

  /**
   * The create test compares the contact as given, not as it will be read
   * back: `Ann:B`/`1` passes the test against a file holding `Ann:B`, and
   * the file then reads as `Ann`/`B` twice.
   */
  lemma CreateCanDuplicate()
    ensures var lines, contact := ["Ann:B"], Contact("Ann:B", "1");
            && ReadFile(lines) == Ok([Contact("Ann", "B")])
            && contact !in ReadFile(lines).value
            && ReadFile(lines + [Serialize(contact)]) == Ok([Contact("Ann", "B"), Contact("Ann", "B")])
            && !NoDuplicates(ReadFile(lines + [Serialize(contact)]).value)
  {
    var stored, contact := Contact("Ann", "B"), Contact("Ann:B", "1");
    var lines := ["Ann:B"];
    ReadOneLine();
    var line := Serialize(contact);
    ColonInNameShifts();
    assert line[3] == ':';
    AppendVisible(lines, line);
    assert ParseLine(line).value == stored;
    assert [stored] + [stored] == [stored, stored];
    var after := [stored, stored];
    assert after[0] == after[1];
  }

  /** A one-line file holding `Ann:B` reads as the contact `Ann`/`B`. */
  lemma ReadOneLine()
    ensures ReadFile(["Ann:B"]) == Ok([Contact("Ann", "B")])
  {
    var lines, stored := ["Ann:B"], Contact("Ann", "B");
    assert Clean(stored) by {
      assert "Ann" == ['A', 'n', 'n'] && "B" == ['B'];
    }
    assert Serialize(stored) == "Ann:B";
    assert lines == Render([stored]);
    RenderReadBack([stored]);
  }

  /**
   * The corrected duplicate test: comparing the contact as it will be read
   * back keeps a duplicate-free read duplicate-free for every contact.
   */
  lemma StoredFormCheckKeepsNoDuplicates(lines: seq<string>, contact: Contact)
    requires ReadFile(lines).Ok? && NoDuplicates(ReadFile(lines).value)
    requires StoredForm(contact) !in ReadFile(lines).value
    ensures ReadFile(lines + [Serialize(contact)]).Ok?
    ensures NoDuplicates(ReadFile(lines + [Serialize(contact)]).value)
  {
    if "" in lines {
      AppendInvisible(lines, Serialize(contact));
    } else {
      AppendVisible(lines, Serialize(contact));
    }
  }

  /**
   * A session on a new store with two different contacts whose fields hold
   * no `:`: both creates read back in insertion order, a second create of
   * the first contact is refused, and deleting index 0 leaves the other.
   */
  method Session(alice: Contact, bob: Contact)
      returns (afterCreates: seq<Contact>, again: Result<bool>, afterDelete: seq<Contact>)
    requires Clean(alice) && Clean(bob) && alice != bob
    ensures afterCreates == [alice, bob]
    ensures again == Ok(false)
    ensures afterDelete == [bob]
  {
    var book := new PhonebookImplementation();
    assert ReadFile(book.lines) == Ok([]) by { RenderReadBack([]); }
    var created := book.CreateContact(alice);
    created := book.CreateContact(bob);
    var read := book.ReadContact();
    afterCreates := read.value;
    again := book.CreateContact(alice);
    var deleted := book.DeleteContact(0);
    read := book.ReadContact();
    afterDelete := read.value;
  }

  /** The documented session, with Alice/123 and Bob/456. */
  method Example() returns (afterCreates: seq<Contact>, again: Result<bool>, afterDelete: seq<Contact>)
    ensures afterCreates == [Contact("Alice", "123"), Contact("Bob", "456")]
    ensures again == Ok(false)
    ensures afterDelete == [Contact("Bob", "456")]
  {
    var alice, bob := Contact("Alice", "123"), Contact("Bob", "456");
    assert Clean(alice) && Clean(bob);
    afterCreates, again, afterDelete := Session(alice, bob);
  }
}
