/** The progress ledger of src/client/updater/updater_ui.cpp: which files make up an update, which are done
    and how far the others are. The functions work on ledger values; class Ui keeps one in its fields. */
module UpdateLedger {
  import opened Words

  datatype FileInfo = FileInfo(name: string, size: Word, hash: string)

  /** Bytes received so far, and the size they are counted against. */
  datatype Progress = Progress(received: Word, size: Word)

  datatype Ledger = Ledger(total: seq<FileInfo>, downloaded: seq<FileInfo>, downloading: map<string, Progress>)

  function UpdateFiles(files: seq<FileInfo>): Ledger {
    Ledger(files, [], map[])
  }

  function DoneUpdate(): Ledger {
    Ledger([], [], map[])
  }

  function FileProgress(l: Ledger, file: FileInfo, progress: Word): Ledger {
    l.(downloading := l.downloading[file.name := Progress(progress, file.size)])
  }

  function BeginFile(l: Ledger, file: FileInfo): Ledger {
    FileProgress(l, file, 0)
  }

  /** A missing entry is the "Failed to erase file." assertion of the source. */
  function EndFile(l: Ledger, file: FileInfo): Ledger {
    l.(downloaded := l.downloaded + [file], downloading := l.downloading - {file.name})
  }

  // ---- Sizes ----

  function SizeSum(files: seq<FileInfo>): nat {
    if files == [] then 0 else files[0].size + SizeSum(files[1..])
  }

  lemma {:induction false} SizeSumAppend(a: seq<FileInfo>, b: seq<FileInfo>)
    ensures SizeSum(a + b) == SizeSum(a) + SizeSum(b)
  {
    if a == [] {
      assert a + b == b;
    } else {
      assert (a + b)[1..] == a[1..] + b;
      SizeSumAppend(a[1..], b);
    }
  }

  /** The received bytes of all files in flight. */
  ghost function FlightSum(m: map<string, Progress>): nat
    decreases |m|
  {
    if m == map[] then 0
    else
      var k :| k in m;
      m[k].received + FlightSum(m - {k})
  }

  /** Any entry can be taken out of the sum first. */
  lemma {:induction false} FlightSumWithout(m: map<string, Progress>, k: string)
    requires k in m
    ensures FlightSum(m) == m[k].received + FlightSum(m - {k})
    decreases |m|
  {
    var j :| j in m && FlightSum(m) == m[j].received + FlightSum(m - {j});
    if j != k {
      FlightSumWithout(m - {j}, k);
      FlightSumWithout(m - {k}, j);
      assert m - {j} - {k} == m - {k} - {j};
    }
  }

  lemma FlightSumUpdate(m: map<string, Progress>, k: string, p: Progress)
    ensures FlightSum(m[k := p]) == p.received + FlightSum(m - {k})
    ensures k !in m ==> m - {k} == m
  {
    FlightSumWithout(m[k := p], k);
    assert m[k := p] - {k} == m - {k};
  }

  ghost function DownloadedSize(l: Ledger): nat {
    SizeSum(l.downloaded) + FlightSum(l.downloading)
  }

  function TotalSize(l: Ledger): nat {
    SizeSum(l.total)
  }

  /** What the search for the smallest file in flight settles on, in whatever order it visits them. */
  ghost predicate IsCandidateName(m: map<string, Progress>, name: string) {
    if exists k :: k in m && m[k].size < TWO_64 - 1 then name in m && forall k | k in m :: m[name].size <= m[k].size
    else name == ""
  }

  /** The name the dialog shows: a file in flight of the least size, otherwise the last one finished. */
  ghost predicate IsRelevantName(l: Ledger, name: string) {
    || (IsCandidateName(l.downloading, name) && (name != "" || l.downloaded == []))
    || (IsCandidateName(l.downloading, "") && l.downloaded != [] && name == l.downloaded[|l.downloaded| - 1].name)
  }
}
