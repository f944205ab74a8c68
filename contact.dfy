/**
 * A contact and the one-line text form it is stored in. The `Contact`
 * record's own definition is not part of this model: its text form is
 * taken to be `name:phone` (what `$"{contact}"` is read back as), and its
 * equality to be structural on both fields, which a datatype gives.
 */
module Contacts {
  import Text

  datatype Contact = Contact(name: string, phone: string)

  /** A field that survives being written and read back: it holds no `:`. */
  predicate CleanField(s: string) {
    ':' !in s
  }

  predicate Clean(c: Contact) {
    CleanField(c.name) && CleanField(c.phone)
  }

  /** The line `$"{contact}"` writes. It is never the empty line. */
  function Serialize(c: Contact): (line: string)
    ensures |line| == |c.name| + 1 + |c.phone|
    ensures line[..|c.name|] == c.name && line[|c.name|] == ':' && line[|c.name| + 1..] == c.phone
    ensures line != ""
  {
    c.name + ":" + c.phone
  }

  /**
   * One non-empty line as the read loop turns it into a contact: split on
   * every `:`, piece 0 is the name and piece 1 the phone; a line without
   * `:` has no piece 1 and yields nothing.
   */
  function ParseLine(line: string): (r: Option<Contact>)
    ensures r.Some? <==> ':' in line
  {
    var parts := Text.Split(line, ':');
    if |parts| < 2 then None else Some(Contact(parts[0], parts[1]))
  }

  datatype Option<T> = None | Some(value: T)

  /**
   * What a parsed contact is: the name is the text before the first `:`,
   * the phone the text from there up to the next `:` or the end of the
   * line; whatever follows a second `:` is dropped.
   */
  lemma ParseLineFields(line: string)
    requires ':' in line
    ensures var c := ParseLine(line).value;
            var n := |c.name|;
            var p := |c.phone|;
            && Clean(c)
            && n + 1 + p <= |line|
            && line[..n] == c.name && line[n] == ':'
            && line[n + 1..n + 1 + p] == c.phone
            && (n + 1 + p == |line| || line[n + 1 + p] == ':')
  {
    var parts := Text.Split(line, ':');
    Text.JoinSplit(line, ':');
    var tail := Text.Join(parts[1..], ':');
    assert line == parts[0] + [':'] + tail;
    if |parts| > 2 {
      assert tail == parts[1] + [':'] + Text.Join(parts[2..], ':');
    }
  }

  /** A contact with clean fields reads back as itself. */
  lemma SerializeRoundTrip(c: Contact)
    requires Clean(c)
    ensures ParseLine(Serialize(c)) == Some(c)
  {
    Text.SplitJoin([c.name, c.phone], ':');
    assert Text.Join([c.name, c.phone], ':') == Serialize(c);
  }

  /** Parsing a line and writing the contact back gives a line that parses to the same contact. */
  lemma ReparseStable(line: string)
    requires ':' in line
    ensures ParseLine(Serialize(ParseLine(line).value)) == ParseLine(line)
  {
    ParseLineFields(line);
    SerializeRoundTrip(ParseLine(line).value);
  }

  /**
   * A line with two or more `:` is written back as its part before the
   * second `:`.
   */
  lemma TwoColonsNotKept(line: string, i: nat, j: nat)
    requires i < j < |line| && line[i] == ':' && line[j] == ':'
    ensures var s := Serialize(ParseLine(line).value);
            |s| < |line| && line[..|s|] == s && line[|s|] == ':'
  {
    var c := ParseLine(line).value;
    ParseLineFields(line);
    var n, p := |c.name|, |c.phone|;
    var s := Serialize(c);
    assert forall k :: 0 <= k < n ==> line[k] == c.name[k];
    assert n <= i;
    assert forall k :: n < k < n + 1 + p ==> line[k] == c.phone[k - n - 1];
    assert n + 1 + p < |line|;
    assert s == line[..n] + [line[n]] + line[n + 1..n + 1 + p];
    assert s == line[..n + 1 + p];
  }

  /** The contact as a later read returns it: its line parsed back. */
  function StoredForm(contact: Contact): (stored: Contact)
    ensures Clean(stored)
    ensures Clean(contact) ==> stored == contact
    ensures ParseLine(Serialize(contact)) == Some(stored)
  {
    var line := Serialize(contact);
    ParseLineFields(line);
    if Clean(contact) then
      SerializeRoundTrip(contact);
      ParseLine(line).value
    else
      ParseLine(line).value
  }

  /** A `:` inside the phone is not preserved: only its first part comes back. */
  lemma ColonInPhoneIsCut()
    ensures ParseLine(Serialize(Contact("Ann", "12:34"))) == Some(Contact("Ann", "12"))
  {
    Text.SplitJoin(["Ann", "12", "34"], ':');
    assert Serialize(Contact("Ann", "12:34")) == Text.Join(["Ann", "12", "34"], ':');
  }

  /** A `:` inside the name moves its second part into the phone. */
  lemma ColonInNameShifts()
    ensures ParseLine(Serialize(Contact("Ann:B", "1"))) == Some(Contact("Ann", "B"))
  {
    Text.SplitJoin(["Ann", "B", "1"], ':');
    assert Serialize(Contact("Ann:B", "1")) == Text.Join(["Ann", "B", "1"], ':');
  }
}
