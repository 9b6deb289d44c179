/** The subscriber table of ledgerly/lib/storage.ts.

    The JSON array kept in data/subscribers.json is the field `file` of a
    `DataStore` object.  Every store operation reads the whole array and
    `addSubscriber` rewrites the whole array; whether the filesystem read
    (with its JSON.parse) or the write succeeds is passed in as a flag.
 */
module Storage {

  datatype Option<T> = None | Some(value: T)

  /** One element of the persisted array: the `Subscriber` interface. */
  datatype Subscriber = Subscriber(
    email: string,
    signupDate: string,
    source: string,
    surveySent: bool,
    surveyCompleted: bool,
    rewardEligible: bool,
    lastEmailedAt: Option<string>)

  /** `rows.some(s => s.email === email)`: an exact, case-sensitive lookup. */
  function HasEmail(rows: seq<Subscriber>, email: string): (found: bool)
    ensures found <==> exists k | 0 <= k < |rows| :: rows[k].email == email
  {
    if rows == [] then false
    else if rows[0].email == email then true
    else
      var rest := HasEmail(rows[1..], email);
      assert forall k | 1 <= k < |rows| :: rows[k] == rows[1..][k - 1];
      rest
  }

  /** The key of the table: no two rows share an email. */
  ghost predicate UniqueEmails(rows: seq<Subscriber>) {
    forall i, j | 0 <= i < j < |rows| :: rows[i].email != rows[j].email
  }

  /** The number of rows that carry `email`. */
  function CountEmail(rows: seq<Subscriber>, email: string): (n: nat) {
    if rows == [] then 0
    else (if rows[0].email == email then 1 else 0) + CountEmail(rows[1..], email)
  }

  lemma {:induction false} CountEmailPositive(rows: seq<Subscriber>, email: string)
    ensures CountEmail(rows, email) > 0 <==> HasEmail(rows, email)
  {
    if rows != [] {
      CountEmailPositive(rows[1..], email);
      assert forall k | 0 <= k < |rows| - 1 :: rows[1..][k] == rows[k + 1];
    }
  }

  /** Under the key, an email is stored at most once. */
  lemma {:induction false} UniqueCountAtMostOne(rows: seq<Subscriber>, email: string)
    requires UniqueEmails(rows)
    ensures CountEmail(rows, email) <= 1
    ensures CountEmail(rows, email) == 1 <==> HasEmail(rows, email)
  {
    CountEmailPositive(rows, email);
    if rows != [] {
      var rest := rows[1..];
      assert UniqueEmails(rest) by {
        forall i, j | 0 <= i < j < |rest| ensures rest[i].email != rest[j].email {
          assert rest[i] == rows[i + 1] && rest[j] == rows[j + 1];
        }
      }
      UniqueCountAtMostOne(rest, email);
      if rows[0].email == email {
        assert !HasEmail(rest, email) by {
          forall k | 0 <= k < |rest| ensures rest[k].email != email {
            assert rest[k] == rows[k + 1];
          }
        }
        CountEmailPositive(rest, email);
      }
    }
  }

  /** What one `addSubscriber` call returns and what the file holds afterwards. */
  datatype AddOutcome = AddOutcome(added: bool, file: seq<Subscriber>)

  /** `addSubscriber` with a failed read reported as a storage failure
      (the corrected behaviour; see `AddToFileAsWritten`). */
  function AddToFile(file: seq<Subscriber>, s: Subscriber, readOk: bool, writeOk: bool): (r: AddOutcome) {
    if !readOk || HasEmail(file, s.email) || !writeOk then AddOutcome(false, file)
    else AddOutcome(true, file + [s])
  }

  /** `addSubscriber` as storage.ts writes it: the read goes through
      `getAllSubscribers`, which turns a failed read into an empty array,
      and the array written back is that one with `s` pushed on. */
  function AddToFileAsWritten(file: seq<Subscriber>, s: Subscriber, readOk: bool, writeOk: bool): (r: AddOutcome) {
    var seen := if readOk then file else [];
    if HasEmail(seen, s.email) || !writeOk then AddOutcome(false, file)
    else AddOutcome(true, seen + [s])
  }

  /** The return value: true exactly when both file operations succeed and
      the email is new; a duplicate or a failed write gives false. */
  lemma AddToFileResult(file: seq<Subscriber>, s: Subscriber, readOk: bool, writeOk: bool)
    ensures AddToFile(file, s, readOk, writeOk).added
        <==> readOk && writeOk && forall k | 0 <= k < |file| :: file[k].email != s.email
    ensures !writeOk || (exists k | 0 <= k < |file| :: file[k].email == s.email)
        ==> AddToFile(file, s, readOk, writeOk) == AddOutcome(false, file)
  {
  }

  /** The table is append-only: existing rows keep their values and their
      order, and at most one row, `s`, is added at the end. */
  lemma AddToFileOnlyAppends(file: seq<Subscriber>, s: Subscriber, readOk: bool, writeOk: bool)
    ensures var r := AddToFile(file, s, readOk, writeOk);
      && |file| <= |r.file| <= |file| + 1
      && r.file[..|file|] == file
      && (|r.file| == |file| + 1 <==> r.added)
      && (r.added ==> r.file[|file|] == s)
  {
  }

  /** `addSubscriber` keeps the key of the table. */
  lemma AddToFilePreservesUnique(file: seq<Subscriber>, s: Subscriber, readOk: bool, writeOk: bool)
    requires UniqueEmails(file)
    ensures UniqueEmails(AddToFile(file, s, readOk, writeOk).file)
  {
  }

  /** Round trip: after a successful add, `exists(s.email)` holds and the
      array read back holds `s` with every field equal, exactly once. */
  lemma AddToFileThenVisible(file: seq<Subscriber>, s: Subscriber, readOk: bool, writeOk: bool)
    requires UniqueEmails(file)
    ensures var r := AddToFile(file, s, readOk, writeOk);
      r.added ==> HasEmail(r.file, s.email) && r.file[|r.file| - 1] == s && CountEmail(r.file, s.email) == 1
  {
    var r := AddToFile(file, s, readOk, writeOk);
    if r.added {
      assert r.file[|r.file| - 1] == s;
      UniqueCountAtMostOne(r.file, s.email);
    }
  }

  /** Adding the same email twice: the second call returns false and leaves
      the file alone, and the email is stored exactly once. */
  lemma {:induction false} AddTwiceKeepsOneRecord(
    file: seq<Subscriber>, s: Subscriber, t: Subscriber,
    read1: bool, write1: bool, read2: bool, write2: bool)
    requires UniqueEmails(file)
    requires t.email == s.email
    ensures var r1 := AddToFile(file, s, read1, write1);
      var r2 := AddToFile(r1.file, t, read2, write2);
      && (r1.added ==> !r2.added && r2.file == r1.file)
      && (HasEmail(r2.file, s.email) ==> CountEmail(r2.file, s.email) == 1)
  {
    var r1 := AddToFile(file, s, read1, write1);
    AddToFileThenVisible(file, s, read1, write1);
    AddToFilePreservesUnique(file, s, read1, write1);
    var r2 := AddToFile(r1.file, t, read2, write2);
    AddToFilePreservesUnique(r1.file, t, read2, write2);
    UniqueCountAtMostOne(r2.file, s.email);
  }

  /** The two definitions agree whenever the read succeeds. */
  lemma AsWrittenAgreesWhenReadSucceeds(file: seq<Subscriber>, s: Subscriber, writeOk: bool)
    ensures AddToFileAsWritten(file, s, true, writeOk) == AddToFile(file, s, true, writeOk)
  {
  }

  /** A failed read followed by a successful write makes the code as written
      report success and replace every stored row by `s`; the corrected
      definition reports a failure and leaves the file as it was. */
  lemma AsWrittenReadFailureDropsRecords(file: seq<Subscriber>, s: Subscriber)
    requires file != [] && file[0] != s
    ensures var r := AddToFileAsWritten(file, s, false, true);
      r.added && r.file == [s] && file[0] !in r.file
    ensures AddToFile(file, s, false, true) == AddOutcome(false, file)
  {
  }

  /** As written, a failed read also hides a duplicate: adding an email that
      is already stored reports success, where the corrected definition
      reports a failure. */
  lemma AsWrittenReadFailureAcceptsDuplicate(file: seq<Subscriber>, s: Subscriber)
    requires HasEmail(file, s.email)
    ensures AddToFileAsWritten(file, s, false, true) == AddOutcome(true, [s])
    ensures AddToFile(file, s, false, true) == AddOutcome(false, file)
  {
  }

  /** The object behind `DataStore`. */
  class DataStore {
    /** The array held in data/subscribers.json. */
    var file: seq<Subscriber>

    ghost predicate Valid()
      reads this
    {
      UniqueEmails(file)
    }

    /** Module load: the file is created holding an empty array. */
    constructor ()
      ensures file == [] && Valid()
    {
      file := [];
    }

    /** `getAllSubscribers`: the whole array in insertion order, or the empty
        array when the read fails. */
    method GetAllSubscribers(readOk: bool) returns (rows: seq<Subscriber>)
      ensures readOk ==> rows == file
      ensures !readOk ==> rows == []
    {
      // a throwing readFileSync or JSON.parse is caught and logged
      rows := if readOk then file else [];
    }

    /** `exists`: whether some stored row has exactly this email; false when
        the read fails. */
    method Exists(email: string, readOk: bool) returns (found: bool)
      ensures found <==> readOk && exists k | 0 <= k < |file| :: file[k].email == email
    {
      var rows := GetAllSubscribers(readOk);
      found := HasEmail(rows, email);
    }

    /** `addSubscriber`, corrected: a failed read is treated as a storage
        failure instead of as an empty array (see `AddSubscriberAsWritten`). */
    method AddSubscriber(s: Subscriber, readOk: bool, writeOk: bool) returns (added: bool)
      requires Valid()
      modifies this
      ensures Valid()
      ensures AddOutcome(added, file) == AddToFile(old(file), s, readOk, writeOk)
    {
      if !readOk {
        return false;
      }
      var rows := file;
      if HasEmail(rows, s.email) {
        return false;
      }
      rows := rows + [s];
      if !writeOk {
        return false;
      }
      AddToFilePreservesUnique(file, s, readOk, writeOk);
      file := rows;
      added := true;
    }

    /** `addSubscriber` exactly as written, reading through `getAllSubscribers`. */
    method AddSubscriberAsWritten(s: Subscriber, readOk: bool, writeOk: bool) returns (added: bool)
      requires Valid()
      modifies this
      ensures Valid()
      ensures AddOutcome(added, file) == AddToFileAsWritten(old(file), s, readOk, writeOk)
    {
      var rows := GetAllSubscribers(readOk);
      if HasEmail(rows, s.email) {
        return false;
      }
      rows := rows + [s];
      if !writeOk {
        return false;
      }
      file := rows;
      added := true;
    }
  }
}
