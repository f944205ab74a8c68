# Phonebook contact store in Dafny

This project models `PhonebookImplementation`, the contact store of a
console phonebook. The store keeps name/phone contacts in a text file, one
contact per line. It offers four operations:

- **ReadContact** parses lines until the first empty line. Each line is
  split on every `:`. The first piece is the name and the second piece is
  the phone. A line with no `:` makes the read fail.
- **CreateContact** reads the contacts and refuses a contact equal to one
  already read. Otherwise it appends one line at the physical end of the
  file.
- **UpdateContact** replaces the contact at an index of the list read and
  rewrites the whole file from that list.
- **DeleteContact** removes, from the list read, the first contact equal to
  the one at the given index, then rewrites the whole file.

Each successful change calls the change callback once: Create with the
contact's name in green, Update with the new name in yellow, Delete with
the removed name in red.

The model keeps the raw lines of the file as the state, not the parsed
list, because the two differ. A read stops at the first empty line, but
Create appends after it. A contact created after an empty line is
therefore invisible to every later read, and creating it again succeeds
again (`AppendInvisible`, and the last ensures of `CreateContact`). Update
and Delete rewrite only the contacts read, so they drop the empty line and
everything after it. A line before it is written back unchanged when it has
exactly one `:` (`RewriteKeepsReadPart`). A line with a second `:` is
replaced by its part before the second `:`, so `a:b:c` becomes `a:b`
(`RewriteCutsExtraPieces`, `RewriteAbc`).

Files:

- `text.dfy` (module `Text`): the .NET `string.Split` on one separator
  character, with `Join` as its inverse.
- `contact.dfy` (module `Contacts`): the contact record, its one-line form
  and the parse of one line.
- `contact_file.dfy` (module `ContactFile`): the file as a sequence of
  lines; what a read returns (`ReadFile`) and what a rewrite writes
  (`Render`); `List.Remove` as `RemoveFirst`.
- `phonebook.dfy` (module `Implementation`): the store as a class whose
  fields are the file's lines and the log of change notifications. Each
  method is proved against the functions above.

Assumptions about code that is not part of this model:

- `Phonebook/Models` is not part of this model. `Contact.ToString` is taken
  to produce `name:phone`, which is what the read loop parses back.
  `Contact` equality (used by `List.Contains` and `List.Remove`) is taken
  to be structural on both fields.

Two behaviours of the code are easy to miss:

- A line with more than one `:` keeps only its first two pieces, and the
  rest is dropped silently (`ColonInPhoneIsCut`).
- Delete removes the first contact equal to the one at the index. That is
  an earlier copy when there is one (`RemoveFirstTakesEarlierCopy`).

## Model

| member | source | states |
|---|---|---|
| `Text.Split` | Phonebook/Implementation/Phonebook.cs:77 | there is at least one piece, no piece holds the separator, and there is exactly one piece (the whole line) iff the line holds no separator |
| `Text.JoinSplit` | Phonebook/Implementation/Phonebook.cs:77 | splitting loses nothing: the pieces joined with `:` give back the line |
| `Text.SplitJoin` | Phonebook/Implementation/Phonebook.cs:77 | separator-free pieces, joined and then split, come back unchanged |
| `Contacts.Serialize` | Phonebook/Implementation/Phonebook.cs:54 | the written line is the name, then a `:`, then the phone, and nothing else (its length is theirs plus one); it is never the empty line |
| `Contacts.ParseLine` | Phonebook/Implementation/Phonebook.cs:77-81 | a line yields a contact iff it holds a `:` (otherwise `contactData[1]` does not exist) |
| `Contacts.ParseLineFields` | Phonebook/Implementation/Phonebook.cs:77-81 | the name is the text before the first `:` and the phone the text from there to the next `:` or the end of the line; neither field holds a `:` |
| `Contacts.SerializeRoundTrip` | Phonebook/Implementation/Phonebook.cs:77-81 | a contact whose name and phone hold no `:` parses back from its own line as itself |
| `Contacts.ReparseStable` | Phonebook/Implementation/Phonebook.cs:77-81 | writing a parsed contact back and parsing again gives the same contact |
| `Contacts.TwoColonsNotKept` | Phonebook/Implementation/Phonebook.cs:77-81 | a line with two `:` is written back, after parsing, as its part before the second `:`: a strict prefix followed there by `:` |
| `Contacts.StoredForm` | Phonebook/Implementation/Phonebook.cs:77-81 | the contact as a later read returns it: exactly what its line parses back to, with no `:` in its fields, and the contact itself when its fields hold no `:` |
| `Contacts.ColonInPhoneIsCut` | Phonebook/Implementation/Phonebook.cs:77-80 | the contact `Ann`/`12:34` reads back as `Ann`/`12` |
| `Contacts.ColonInNameShifts` | Phonebook/Implementation/Phonebook.cs:77-80 | the contact `Ann:B`/`1` reads back as `Ann`/`B` |
| `ContactFile.FirstBlank` | Phonebook/Implementation/Phonebook.cs:73-76 | the index where reading stops: every earlier line is non-empty and the line there, if any, is empty |
| `ContactFile.ReadFile` | Phonebook/Implementation/Phonebook.cs:69-84 | a read succeeds iff every line before the first empty one holds a `:` |
| `ContactFile.Render` | Phonebook/Implementation/Phonebook.cs:127-131 | a rewrite writes exactly one line per contact, and none of them is empty or lacks a `:` |
| `ContactFile.ReadContactsClean` | Phonebook/Implementation/Phonebook.cs:77-81 | no contact returned by a read has a `:` in its name or phone |
| `ContactFile.RenderReadBack` | Phonebook/Implementation/Phonebook.cs:123-133 | a rewrite with contacts free of `:` reads back as the same list, in the same order |
| `ContactFile.StoredForms` | Phonebook/Implementation/Phonebook.cs:77-81 | a list of the same length holding, position by position, each contact as its line reads back |
| `ContactFile.RenderReadBackAny` | Phonebook/Implementation/Phonebook.cs:123-133 | a rewrite with any contacts reads back, in the same order, as each contact's stored form |
| `ContactFile.ReadRewriteRead` | Phonebook/Implementation/Phonebook.cs:123-133 | rewriting the file from what was read and reading again gives the same list |
| `ContactFile.RewriteKeepsReadPart` | Phonebook/Implementation/Phonebook.cs:123-133 | when each line before the first empty one has exactly one `:`, a rewrite gives exactly those lines: the empty line and everything after it are dropped |
| `ContactFile.RewriteCutsExtraPieces` | Phonebook/Implementation/Phonebook.cs:123-133 | a line before the first empty one that holds a second `:` is written back as its part before that second `:` |
| `ContactFile.RewriteAbc` | Phonebook/Implementation/Phonebook.cs:123-133 | the file `a:b:c` is rewritten as the single line `a:b` |
| `ContactFile.AppendVisible` | Phonebook/Implementation/Phonebook.cs:52-54 | appending a line with a `:` to a file with no empty line adds its contact at the end of what is read |
| `ContactFile.AppendInvisible` | Phonebook/Implementation/Phonebook.cs:52-54 | a line appended to a file that already has an empty line does not change what is read |
| `ContactFile.FirstIndex` | Phonebook/Implementation/Phonebook.cs:111 | the index of the first element equal to the one to remove |
| `ContactFile.RemoveFirst` | Phonebook/Implementation/Phonebook.cs:111 | `List.Remove`: the list is unchanged if the value is absent, else exactly its first occurrence is cut out |
| `ContactFile.RemoveAt` | Phonebook/Implementation/Phonebook.cs:109-112 | removing the element found at index `i` shortens the list by one and removes one copy of it; with no earlier equal element, it is the element at `i` that goes and the later ones shift down |
| `ContactFile.RemoveFirstTakesEarlierCopy` | Phonebook/Implementation/Phonebook.cs:110-111 | in `[a, b, a]`, removing the element at index 2 gives `[b, a]` |
| `Implementation.PhonebookImplementation.constructor` | Phonebook/Implementation/Phonebook.cs:22-27 | a new store starts on an empty file with no notifications |
| `Implementation.PhonebookImplementation.ReadContact` | Phonebook/Implementation/Phonebook.cs:65-85 | the read loop returns exactly `ReadFile` of the current lines: one contact per line up to the first empty line, or the missing-separator error |
| `Implementation.PhonebookImplementation.CreateContact` | Phonebook/Implementation/Phonebook.cs:43-59 | on a failed read: the error, nothing changed; on a duplicate: false, nothing changed; otherwise true, exactly the contact's line appended and one green notification with its name; when the file had no empty line, the read gains the contact's stored form at the end, which is the contact itself when its name and phone hold no `:`; when the file had an empty line, the read is unchanged |
| `Implementation.PhonebookImplementation.UpdateContact` | Phonebook/Implementation/Phonebook.cs:93-100 | on a failed read or an index outside the list: an error, nothing changed; otherwise the file is rewritten from the list with only element `id` replaced, one yellow notification with the new name, and the file reads back as the old list with only element `id` replaced by the new contact's stored form (the contact itself when its name and phone hold no `:`) |
| `Implementation.PhonebookImplementation.DeleteContact` | Phonebook/Implementation/Phonebook.cs:107-115 | on a failed read or an index outside the list: an error, nothing changed; otherwise the file is rewritten from the list without the first element equal to the one at `id`, one red notification with its name, and the read-back list is one shorter |
| `Implementation.PhonebookImplementation.RewriteFile` | Phonebook/Implementation/Phonebook.cs:123-133 | the file afterwards is exactly one serialised line per contact, in list order |
| `Implementation.UpdateReadBack` | Phonebook/Implementation/Phonebook.cs:95-97 | replacing element `id` of a read list by any contact and rewriting gives a file that reads back as the list with element `id` replaced by that contact's stored form |
| `Implementation.DeleteReadBack` | Phonebook/Implementation/Phonebook.cs:109-112 | removing the element at `id` from a read list and rewriting gives a file that reads back as that list, one shorter than before |
| `Implementation.CreateKeepsNoDuplicates` | Phonebook/Implementation/Phonebook.cs:47-54 | when the read has no duplicates and the duplicate test passes for a contact whose name and phone hold no `:`, the read after the append still has no duplicates |
| `Implementation.CreateCanDuplicate` | Phonebook/Implementation/Phonebook.cs:47-54 | on the file `Ann:B`, the contact `Ann:B`/`1` passes the duplicate test, and the file afterwards reads as `Ann`/`B` twice |
| `Implementation.ReadOneLine` | Phonebook/Implementation/Phonebook.cs:69-84 | the one-line file `Ann:B` reads as the single contact `Ann`/`B` |
| `Implementation.StoredFormCheckKeepsNoDuplicates` | Phonebook/Implementation/Phonebook.cs:47-54 | testing the contact as it will be read back, instead of as given, keeps a duplicate-free read duplicate-free for every contact |
| `Implementation.Session` | Phonebook/Implementation/Phonebook.cs:43-115 | on a new store, for any two different contacts whose fields hold no `:`: creating both reads back as both in that order; creating the first again returns false; deleting index 0 leaves only the second |
| `Implementation.Example` | Phonebook/Implementation/Phonebook.cs:43-115 | creating Alice/123 and Bob/456 reads back as both in that order; creating Alice again returns false; deleting index 0 leaves only Bob |

## Findings

| source | as written | input that shows it | evidently intended | confidence | as-written member | corrected member |
|---|---|---|---|---|---|---|
| Phonebook/Implementation/Phonebook.cs:49-54 | the duplicate test compares the contact as given, but a `:` in its name or phone changes what its line reads back as | file `Ann:B`; create `Ann:B`/`1`; the file then reads as `Ann`/`B` twice | a successful create never makes two equal contacts | medium, not executed | `Implementation.CreateCanDuplicate` | `Implementation.StoredFormCheckKeepsNoDuplicates` |

The store class keeps the duplicate test as the code writes it. The
corrected test (`StoredForm`) is stated and proved beside it.

## Left out

- The menu loop in `Phonebook/Program.cs` (console input, screen clearing, coloured output) is not modelled. It is only the caller.
- The singleton accessor is left out. The model uses one explicit store object, created on an empty file.
- The `File.Exists`/`File.Create` checks are left out. The file is assumed to exist.
- `async`/`Task` and stream buffering are left out. Each operation is one atomic step.
- Newline conventions are left out. The file is a sequence of lines, so a line break inside a name or phone is not modelled. A real file would split such a contact over several lines.
- The callback's `ConsoleColor` is a three-value enumeration. A missing callback is not modelled: every notification is logged.
- Exceptions are modelled as error values, and the error kinds are simplified. A line without `:` gives `MissingSeparator`. An update or delete index outside the list gives `IndexOutOfRange`. In both cases nothing is written and nothing is notified, as in the source, where the exception fires before any write.
- The redundant `line == null` test inside the read loop is not modelled. The loop condition already excludes it.
