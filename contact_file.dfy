/**
 * The phonebook file as a sequence of lines, and what reading and rewriting
 * it mean: the specification that the store's loops are proved against.
 */
module ContactFile {
  import opened Contacts

  /** The two ways the store's operations fail (both are exceptions in the store). */
  datatype Error =
    | MissingSeparator   // a line before the first empty one has no `:`
    | IndexOutOfRange    // an update or delete index outside the contact list

  datatype Result<T> = Ok(value: T) | Err(error: Error)

  /** The index of the first empty line, or the number of lines if there is none. */
  function FirstBlank(lines: seq<string>): (k: nat)
    ensures k <= |lines|
    ensures forall j :: 0 <= j < k ==> lines[j] != ""
    ensures k < |lines| ==> lines[k] == ""
  {
    if lines == [] || lines[0] == "" then 0 else 1 + FirstBlank(lines[1..])
  }

  /** Every line the read loop reaches can be split into a name and a phone. */
  predicate Readable(lines: seq<string>) {
    forall j :: 0 <= j < FirstBlank(lines) ==> ':' in lines[j]
  }

  /**
   * The contacts a read of the file returns: one per line, in file order,
   * up to the first empty line; a line without `:` before that point makes
   * the read fail.
   */
  function ReadFile(lines: seq<string>): (r: Result<seq<Contact>>)
    ensures r.Ok? <==> Readable(lines)
  {
    var n := FirstBlank(lines);
    if Readable(lines) then
      Ok(seq(n, j requires 0 <= j < n => ParseLine(lines[j]).value))
    else
      Err(MissingSeparator)
  }

  /** The lines a full rewrite of the file leaves: one serialised contact per line, nothing else. */
  function Render(contacts: seq<Contact>): (lines: seq<string>)
    ensures |lines| == |contacts|
    ensures forall i :: 0 <= i < |lines| ==> lines[i] != "" && ':' in lines[i]
  {
    seq(|contacts|, i requires 0 <= i < |contacts| => Serialize(contacts[i]))
  }

  /** Every contact read from the file has clean fields. */
  lemma ReadContactsClean(lines: seq<string>)
    requires ReadFile(lines).Ok?
    ensures forall c :: c in ReadFile(lines).value ==> Clean(c)
  {
    var cs := ReadFile(lines).value;
    forall j | 0 <= j < |cs| ensures Clean(cs[j]) {
      ParseLineFields(lines[j]);
    }
  }

  /** Rewriting the file with clean contacts and reading it back gives the same list. */
  lemma RenderReadBack(contacts: seq<Contact>)
    requires forall c :: c in contacts ==> Clean(c)
    ensures ReadFile(Render(contacts)) == Ok(contacts)
  {
    var lines := Render(contacts);
    var k := FirstBlank(lines);
    assert forall j :: 0 <= j < |lines| ==> lines[j] == Serialize(contacts[j]) != "";
    assert k == |lines|;
    forall j | 0 <= j < |contacts| ensures ParseLine(lines[j]) == Some(contacts[j]) {
      SerializeRoundTrip(contacts[j]);
    }
    assert Readable(lines);
    var read := ReadFile(lines).value;
    assert |read| == |contacts|;
    forall j | 0 <= j < |contacts| ensures read[j] == contacts[j] { }
    assert read == contacts;
  }

  /** Reading, rewriting and reading again gives what the first read gave. */
  lemma ReadRewriteRead(lines: seq<string>)
    requires ReadFile(lines).Ok?
    ensures ReadFile(Render(ReadFile(lines).value)) == ReadFile(lines)
  {
    ReadContactsClean(lines);
    RenderReadBack(ReadFile(lines).value);
  }

  /** What a read returns for each contact of a list. */
  function StoredForms(contacts: seq<Contact>): (stored: seq<Contact>)
    ensures |stored| == |contacts|
    ensures forall i :: 0 <= i < |contacts| ==> stored[i] == StoredForm(contacts[i])
  {
    seq(|contacts|, i requires 0 <= i < |contacts| => StoredForm(contacts[i]))
  }

  /**
   * Rewriting the file with any contacts and reading it back gives, in the
   * same order, each contact as its line parses back.
   */
  lemma RenderReadBackAny(contacts: seq<Contact>)
    ensures ReadFile(Render(contacts)) == Ok(StoredForms(contacts))
  {
    var lines := Render(contacts);
    assert FirstBlank(lines) == |lines|;
    assert Readable(lines);
    var read, want := ReadFile(lines).value, StoredForms(contacts);
    assert |read| == |want|;
    forall j | 0 <= j < |read| ensures read[j] == want[j] {
      assert lines[j] == Serialize(contacts[j]);
    }
    assert read == want;
  }

  /** A line with exactly one `:`. */
  predicate SingleSeparator(line: string) {
    && ':' in line
    && forall i, j :: 0 <= i < j < |line| && line[i] == ':' ==> line[j] != ':'
  }

  /**
   * A rewrite keeps the lines before the first empty one when each has one
   * `:`; it drops the empty line and everything after it.
   */
  lemma RewriteKeepsReadPart(lines: seq<string>)
    requires ReadFile(lines).Ok?
    requires forall j :: 0 <= j < FirstBlank(lines) ==> SingleSeparator(lines[j])
    ensures Render(ReadFile(lines).value) == lines[..FirstBlank(lines)]
  {
    var cs := ReadFile(lines).value;
    forall j | 0 <= j < |cs| ensures Serialize(cs[j]) == lines[j] {
      var line := lines[j];
      ParseLineFields(line);
      var n, p := |cs[j].name|, |cs[j].phone|;
      assert line[n] == ':';
      assert n + 1 + p == |line|;
      assert line == line[..n] + [line[n]] + line[n + 1..n + 1 + p];
    }
  }

  /**
   * The converse: a line before the first empty one that holds a second `:`
   * is written back as its part before that second `:`.
   */
  lemma RewriteCutsExtraPieces(lines: seq<string>, j: nat, i1: nat, i2: nat)
    requires ReadFile(lines).Ok? && j < FirstBlank(lines)
    requires i1 < i2 < |lines[j]| && lines[j][i1] == ':' && lines[j][i2] == ':'
    ensures var w := Render(ReadFile(lines).value)[j];
            |w| < |lines[j]| && lines[j][..|w|] == w && lines[j][|w|] == ':'
  {
    TwoColonsNotKept(lines[j], i1, i2);
  }

  /** The file `a:b:c` is rewritten as `a:b`. */
  lemma RewriteAbc()
    ensures Render(ReadFile(["a:b:c"]).value) == ["a:b"]
  {
    var lines := ["a:b:c"];
    assert FirstBlank(lines) == 1;
    assert lines[0][1] == ':' && lines[0][3] == ':';
    RewriteCutsExtraPieces(lines, 0, 1, 3);
    var w := Render(ReadFile(lines).value)[0];
    assert w == "a:b" by {
      assert |w| < 5 && lines[0][|w|] == ':' && |w| >= 2;
      assert |w| == 3;
      assert w == lines[0][..3];
    }
  }

  /** Appending a readable line to a file without an empty line adds its contact at the end of the read. */
  lemma AppendVisible(lines: seq<string>, line: string)
    requires "" !in lines
    requires ReadFile(lines).Ok?
    requires ':' in line
    ensures ReadFile(lines + [line]) == Ok(ReadFile(lines).value + [ParseLine(line).value])
  {
    var k := FirstBlank(lines);
    var ext := lines + [line];
    assert forall j :: 0 <= j < |ext| ==> ext[j] != "" by {
      forall j | 0 <= j < |ext| ensures ext[j] != "" {
        if j < |lines| { assert ext[j] == lines[j] && lines[j] in lines; }
      }
    }
    var k' := FirstBlank(ext);
    assert k == |lines| && k' == |ext|;
    assert Readable(ext) by {
      forall j | 0 <= j < k' ensures ':' in ext[j] {
        if j < k { assert ext[j] == lines[j]; }
      }
    }
    var read, want := ReadFile(ext).value, ReadFile(lines).value + [ParseLine(line).value];
    assert |read| == |want|;
    forall j | 0 <= j < |read| ensures read[j] == want[j] {
      if j < k { assert ext[j] == lines[j]; }
    }
    assert read == want;
  }

  /** Anything appended after an empty line is invisible to later reads. */
  lemma {:induction false} AppendInvisible(lines: seq<string>, line: string)
    requires "" in lines
    ensures ReadFile(lines + [line]) == ReadFile(lines)
  {
    var ext := lines + [line];
    var k, k' := FirstBlank(lines), FirstBlank(ext);
    var b :| 0 <= b < |lines| && lines[b] == "";
    assert k <= b < |lines|;
    forall j | 0 <= j <= k ensures ext[j] == lines[j] { }
    assert ext[k] == "";
    assert k' == k;
    assert Readable(ext) == Readable(lines);
    if Readable(lines) {
      var a, b := ReadFile(ext).value, ReadFile(lines).value;
      assert |a| == |b|;
      forall j | 0 <= j < |a| ensures a[j] == b[j] { }
      assert a == b;
    }
  }

  /** The position of the first element equal to `x`. */
  function FirstIndex<T(==)>(xs: seq<T>, x: T): (k: nat)
    requires x in xs
    ensures k < |xs| && xs[k] == x
    ensures forall j :: 0 <= j < k ==> xs[j] != x
  {
    if xs[0] == x then 0 else 1 + FirstIndex(xs[1..], x)
  }

  /** The list after `List.Remove(x)`: the first element equal to `x` is taken out, if there is one. */
  function RemoveFirst<T(==)>(xs: seq<T>, x: T): (r: seq<T>)
    ensures x !in xs ==> r == xs
    ensures x in xs ==> r == xs[..FirstIndex(xs, x)] + xs[FirstIndex(xs, x) + 1..]
  {
    if xs == [] then []
    else if xs[0] == x then xs[1..]
    else
      var rest := RemoveFirst(xs[1..], x);
      assert x in xs ==> x in xs[1..] && FirstIndex(xs, x) == 1 + FirstIndex(xs[1..], x);
      assert x in xs ==>
        var k := FirstIndex(xs[1..], x);
        [xs[0]] + (xs[1..][..k] + xs[1..][k + 1..]) == xs[..k + 1] + xs[k + 2..];
      [xs[0]] + rest
  }

  /**
   * Removing the element found at index `i`: the list loses exactly one
   * copy of it; when no earlier element equals it, it is exactly the
   * element at `i` that goes and the later ones shift down by one.
   */
  lemma RemoveAt<T>(xs: seq<T>, i: nat)
    requires i < |xs|
    ensures |RemoveFirst(xs, xs[i])| == |xs| - 1
    ensures multiset(RemoveFirst(xs, xs[i])) == multiset(xs) - multiset{xs[i]}
    ensures (forall j :: 0 <= j < i ==> xs[j] != xs[i]) ==>
              RemoveFirst(xs, xs[i]) == xs[..i] + xs[i + 1..]
  {
    var k := FirstIndex(xs, xs[i]);
    assert xs == xs[..k] + [xs[k]] + xs[k + 1..];
    if forall j :: 0 <= j < i ==> xs[j] != xs[i] {
      assert k == i;
    }
  }

  /** With an earlier duplicate, removing "the element at index 2" takes out the one at index 0. */
  lemma RemoveFirstTakesEarlierCopy()
    ensures var a, b := Contact("Ann", "1"), Contact("Bob", "2");
            RemoveFirst([a, b, a], [a, b, a][2]) == [b, a]
  {
  }
}
