/** The class behind the progress dialog, src/client/updater/updater_ui.cpp. Its fields hold a ledger, its
    methods do to them what module UpdateLedger says; a false result is a thrown cancellation. */
module UpdaterUi {
  import opened Words
  import opened UpdateLedger
  import L = UpdateLedger

  datatype Headline = Blank | UpdateSuccessful | Updating(done: nat, of: nat)

  class Ui {
    var totalFiles: seq<FileInfo>
    var downloadedFiles: seq<FileInfo>
    var downloadingFiles: map<string, Progress>

    // The progress dialog: bar position and range, and its first line.
    var current: Word
    var max: Word
    var headline: Headline

    constructor ()
      ensures Value() == Ledger([], [], map[]) && current == max == 0 && headline == Blank
    {
      totalFiles, downloadedFiles, downloadingFiles := [], [], map[];
      current, max, headline := 0, 0, Blank;
    }

    ghost function Value(): Ledger
      reads this
    {
      Ledger(totalFiles, downloadedFiles, downloadingFiles)
    }

    /** `get_total_size`, in 64-bit arithmetic. */
    method GetTotalSize() returns (r: Word)
      ensures r == Wrap(TotalSize(Value()))
    {
      r := SumFiles(totalFiles);
    }

    method SumFiles(files: seq<FileInfo>) returns (r: Word)
      ensures r == Wrap(SizeSum(files))
    {
      r := 0;
      var i := 0;
      while i < |files|
        invariant 0 <= i <= |files|
        invariant r == Wrap(SizeSum(files[..i]))
      {
        SizeSumAppend(files[..i], [files[i]]);
        WrapPlus(SizeSum(files[..i]), files[i].size);
        assert files[..i + 1] == files[..i] + [files[i]];
        var sum: int := r + files[i].size;
        r := Wrap(sum);
        i := i + 1;
      }
      assert files[..i] == files;
    }

    /** `get_downloaded_size`: finished files in full, files in flight as far as they got. */
    method GetDownloadedSize() returns (r: Word)
      ensures r == Wrap(DownloadedSize(Value()))
    {
      r := SumFiles(downloadedFiles);
      WrapPlus(SizeSum(downloadedFiles), FlightSum(downloadingFiles));
      hide Wrap, FlightSum, SizeSum;
      r := AddReceived(r, downloadingFiles);
    }

    /** The second loop of `get_downloaded_size`, over the map in any order. */
    method AddReceived(start: Word, m: map<string, Progress>) returns (r: Word)
      ensures r == Wrap(start + FlightSum(m))
    {
      hide *;
      r := start;
      var rest := m;
      while rest != map[]
        invariant Wrap(r + FlightSum(rest)) == Wrap(start + FlightSum(m))
        decreases |rest|
      {
        var k :| k in rest;
        AddOne(r, rest, k);
        var sum: int := r + rest[k].received;
        r := Wrap(sum);
        rest := rest - {k};
      }
      NothingLeft(r);
    }

    /** `get_relevant_file_name`. */
    method GetRelevantFileName() returns (name: string)
      ensures IsRelevantName(Value(), name)
    {
      name := "";
      var smallest: Word := TWO_64 - 1;
      var rest := downloadingFiles.Keys;
      while rest != {}
        invariant rest <= downloadingFiles.Keys
        invariant forall k | k in downloadingFiles && k !in rest :: smallest <= downloadingFiles[k].size
        invariant smallest == TWO_64 - 1 ==> name == ""
        invariant smallest < TWO_64 - 1 ==> name in downloadingFiles && downloadingFiles[name].size == smallest
        decreases |rest|
      {
        var k :| k in rest;
        if downloadingFiles[k].size < smallest {
          smallest := downloadingFiles[k].size;
          name := k;
        }
        rest := rest - {k};
      }
      assert IsCandidateName(downloadingFiles, name);
      if name == "" && downloadedFiles != [] {
        name := downloadedFiles[|downloadedFiles| - 1].name;
      }
    }

    method UpdateProgress()
      modifies this`current, this`max
      ensures current == Wrap(DownloadedSize(Value())) && max == Wrap(TotalSize(Value()))
    {
      current := GetDownloadedSize();
      max := GetTotalSize();
    }

    method UpdateFileName()
      modifies this`headline
      ensures headline == if |downloadedFiles| == |totalFiles| then UpdateSuccessful
                          else Updating(|downloadedFiles|, |totalFiles|)
    {
      if |downloadedFiles| == |totalFiles| {
        headline := UpdateSuccessful;
      } else {
        headline := Updating(|downloadedFiles|, |totalFiles|);
      }
    }

    /** `update_files`; a cancelled dialog throws before anything changes. */
    method UpdateFiles(files: seq<FileInfo>, cancelled: bool) returns (ok: bool)
      modifies this
      ensures ok == !cancelled
      ensures Value() == if ok then L.UpdateFiles(files) else old(Value())
    {
      if cancelled {
        return false;
      }
      totalFiles, downloadedFiles, downloadingFiles := files, [], map[];
      current, max, headline := 0, 0, Blank;
      return true;
    }

    /** `done_update`: the bar jumps to the end and the ledger is emptied. */
    method DoneUpdate()
      modifies this
      ensures Value() == L.DoneUpdate()
      ensures current == max == Wrap(TotalSize(old(Value())))
      ensures headline == if |old(downloadedFiles)| == |old(totalFiles)| then UpdateSuccessful
                          else Updating(|old(downloadedFiles)|, |old(totalFiles)|)
    {
      max := GetTotalSize();
      UpdateFileName();
      current := if max > 1 then max - 1 else 0;
      current := max;
      totalFiles, downloadedFiles, downloadingFiles := [], [], map[];
    }

    /** `file_progress`. */
    method FileProgress(file: FileInfo, progress: Word, cancelled: bool) returns (ok: bool)
      modifies this
      ensures ok == !cancelled
      ensures Value() == if ok then L.FileProgress(old(Value()), file, progress) else old(Value())
      ensures ok ==> file.name in downloadingFiles && downloadingFiles[file.name] == Progress(progress, file.size)
      ensures ok ==> current == Wrap(DownloadedSize(Value())) && max == Wrap(TotalSize(Value()))
      ensures headline == old(headline)
    {
      if cancelled {
        return false;
      }
      downloadingFiles := downloadingFiles[file.name := Progress(progress, file.size)];
      UpdateProgress();
      return true;
    }

    /** `begin_file`. */
    method BeginFile(file: FileInfo, cancelled: bool) returns (ok: bool)
      modifies this
      ensures ok == !cancelled
      ensures Value() == if ok then L.BeginFile(old(Value()), file) else old(Value())
      ensures ok ==> current == Wrap(DownloadedSize(Value())) && max == Wrap(TotalSize(Value()))
    {
      ok := FileProgress(file, 0, cancelled);
      if ok {
        UpdateFileName();
      }
    }

    /** `end_file`; `found` is false where the source asserts "Failed to erase file." */
    method EndFile(file: FileInfo) returns (found: bool)
      modifies this
      ensures Value() == L.EndFile(old(Value()), file)
      ensures found <==> file.name in old(downloadingFiles)
      ensures current == Wrap(DownloadedSize(Value())) && max == Wrap(TotalSize(Value()))
    {
      downloadedFiles := downloadedFiles + [file];
      found := file.name in downloadingFiles;
      if found {
        downloadingFiles := downloadingFiles - {file.name};
      }
      assert old(downloadingFiles) - {file.name} == downloadingFiles;
      UpdateProgress();
      UpdateFileName();
    }
  }

  /** One entry of the map goes from what is left into the sum. */
  lemma AddOne(r: Word, rest: map<string, Progress>, k: string)
    requires k in rest
    ensures Wrap(Wrap(r + rest[k].received) + FlightSum(rest - {k})) == Wrap(r + FlightSum(rest))
  {
    FlightSumWithout(rest, k);
    WrapPlus(r + rest[k].received, FlightSum(rest - {k}));
    hide Wrap, FlightSum;
  }

  lemma NothingLeft(r: Word)
    ensures Wrap(r + FlightSum(map[])) == r
  {
  }
}
