/** The older hash de-duplication store of sandbox_WIP/Gazaimage/utils.py: a `files` table in
    its own database, keyed by the SHA-256 hex digest of the content. */
module HashIndex {
  import opened Basics

  /** A `files` row: the url the content first came from and the UTC time it was recorded. */
  datatype FileRow = FileRow(url: string, date: string)

  /** What `file_seen` answers, and the table after it. */
  datatype Outcome = Outcome(existed: bool, files: map<string, FileRow>)

  /** `file_seen` on the table: report whether the hash is stored, and insert it when it is not. */
  function Record(files: map<string, FileRow>, h: string, url: string, date: string): (r: Outcome)
    ensures r.existed <==> h in files
    ensures h in r.files && r.files.Keys == files.Keys + {h}
    ensures forall k :: k in files ==> r.files[k] == files[k]
    ensures h !in files ==> r.files[h] == FileRow(url, date)
  {
    if h in files then Outcome(true, files) else Outcome(false, files[h := FileRow(url, date)])
  }

  /** A second call with the same content, from any url at any time, answers true and changes
      nothing. */
  lemma RecordTwice(files: map<string, FileRow>, h: string, url1: string, date1: string, url2: string, date2: string)
    ensures var first := Record(files, h, url1, date1);
            var second := Record(first.files, h, url2, date2);
            second.existed && second.files == first.files
  {
  }

  /** One call of `file_seen`: the url it is called with, the content and the time. */
  datatype Call = Call(url: string, content: Bytes, date: string)

  /** The table after a sequence of calls, in order. */
  function RecordAll(files: map<string, FileRow>, hash: Bytes -> string, calls: seq<Call>): map<string, FileRow>
  {
    if calls == [] then files
    else
      var last := calls[|calls| - 1];
      Record(RecordAll(files, hash, calls[..|calls| - 1]), hash(last.content), last.url, last.date).files
  }

  /** `calls[i]` is the first call whose content has hash `h`. */
  predicate FirstCallOf(hash: Bytes -> string, calls: seq<Call>, h: string, i: int)
  {
    0 <= i < |calls| && hash(calls[i].content) == h
    && forall j :: 0 <= j < i ==> hash(calls[j].content) != h
  }

  /** Rows are never overwritten: after any sequence of calls, a hash that was not stored before
      holds the url and time of the first call with that content, and a stored one is unchanged. */
  lemma {:induction false} FirstUrlKept(files: map<string, FileRow>, hash: Bytes -> string, calls: seq<Call>, h: string, i: int)
    requires h !in files && FirstCallOf(hash, calls, h, i)
    ensures h in RecordAll(files, hash, calls)
    ensures RecordAll(files, hash, calls)[h] == FileRow(calls[i].url, calls[i].date)
  {
    var init, last := calls[..|calls| - 1], calls[|calls| - 1];
    if i == |calls| - 1 {
      assert h !in RecordAll(files, hash, init) by {
        NotStoredBeforeFirst(files, hash, init, h);
      }
    } else {
      assert FirstCallOf(hash, init, h, i);
      FirstUrlKept(files, hash, init, h, i);
    }
  }

  /** Before the first call with content of hash `h`, the table does not hold `h`. */
  lemma {:induction false} NotStoredBeforeFirst(files: map<string, FileRow>, hash: Bytes -> string, calls: seq<Call>, h: string)
    requires h !in files && forall j :: 0 <= j < |calls| ==> hash(calls[j].content) != h
    ensures h !in RecordAll(files, hash, calls)
  {
    if calls != [] {
      NotStoredBeforeFirst(files, hash, calls[..|calls| - 1], h);
    }
  }

  /** Rows that were there before any call stay as they were. */
  lemma {:induction false} StoredRowsKept(files: map<string, FileRow>, hash: Bytes -> string, calls: seq<Call>, h: string)
    requires h in files
    ensures h in RecordAll(files, hash, calls) && RecordAll(files, hash, calls)[h] == files[h]
  {
    if calls != [] {
      StoredRowsKept(files, hash, calls[..|calls| - 1], h);
    }
  }

  /** The `scraper.db` database next to the script, seen through the `files` table. */
  class FileIndex {
    /** `hashlib.sha256(content).hexdigest()`. */
    const hash: Bytes -> string
    /** Whether `CREATE TABLE files` has run on this database. */
    var tableExists: bool
    var files: map<string, FileRow>

    /** A database file that does not exist yet. */
    constructor Open(hash: Bytes -> string)
      ensures this.hash == hash && !tableExists && files == map[]
    {
      this.hash := hash;
      tableExists := false;
      files := map[];
    }

    /** `init_db`: create the table when it is missing; an existing table and its rows stay. */
    method InitDb()
      modifies this
      ensures tableExists
      ensures files == old(files)
    {
      tableExists := true;
    }

    /** `file_seen(url, content)`: None when the table is missing (the SELECT raises and nothing
        is written); otherwise whether the content's hash was already stored, after inserting it
        when it was not. `date` stands for `datetime.utcnow().isoformat()`. */
    method FileSeen(url: string, content: Bytes, date: string) returns (seen: Option<bool>)
      modifies this
      ensures tableExists == old(tableExists)
      ensures !tableExists ==> seen == None && files == old(files)
      ensures tableExists ==>
                var r := Record(old(files), hash(content), url, date);
                seen == Some(r.existed) && files == r.files
    {
      if !tableExists {
        return None;
      }
      var h := hash(content);
      var stored := h in files;
      if !stored {
        files := files[h := FileRow(url, date)];
      }
      seen := Some(stored);
    }
  }
}
