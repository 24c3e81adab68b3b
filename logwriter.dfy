/**
 * The request log (Server.logRequest and Server.currentLogFile): one entry
 * per request, appended to the file of the hour it was written in, under
 * the log directory.
 *
 * The directory is modelled as a map from file paths to the entries each
 * file holds. Whether opening and encoding succeed is a parameter.
 */
module LogWriter {
  import opened Strings
  import opened Paths
  import opened Wrappers
  import opened LogNames

  /** LogEntry without the timestamp and the duration; `verb` is the request method. */
  datatype LogEntry = LogEntry(verb: string, path: string, status: int, bytes: int)

  /** An hour's file name is one path element: only digits, '-', 'T' and ".log". */
  lemma BucketNameIsElement(b: Bucket)
    requires ValidBucket(b)
    ensures IsElement(BucketName(b))
  {
    var name := BucketName(b);
    assert |name| == 17;
    assert forall i :: 0 <= i < |name| ==> name[i] != '/';
  }

  /** Server.currentLogFile: the log directory joined with the current hour's name. */
  function CurrentLogFile(logDir: string, now: Moment): (f: string)
    requires IsCleanAbs(logDir) && ValidMoment(now)
    ensures IsCleanAbs(f) && f != "/"
    ensures Dir(f) == logDir && ParseBucket(Base(f)) == Some(now.bucket)
  {
    BucketNameIsElement(now.bucket);
    ParseBucketName(now.bucket);
    JoinClean(logDir, CurrentLogName(now));
    Join(logDir, CurrentLogName(now))
  }

  /** Two hours never share a file name: the name determines its hour. */
  lemma BucketNameInjective(a: Bucket, b: Bucket)
    requires ValidBucket(a) && ValidBucket(b)
    ensures BucketName(a) == BucketName(b) <==> a == b
  {
    ParseBucketName(a);
    ParseBucketName(b);
  }

  /** Entries written in the same hour go to one file, and entries of different hours to different files. */
  lemma SameFileIffSameHour(logDir: string, m1: Moment, m2: Moment)
    requires IsCleanAbs(logDir) && ValidMoment(m1) && ValidMoment(m2)
    ensures CurrentLogFile(logDir, m1) == CurrentLogFile(logDir, m2) <==> m1.bucket == m2.bucket
  {
    var f1, f2 := CurrentLogFile(logDir, m1), CurrentLogFile(logDir, m2);
    if f1 == f2 {
      assert Base(f1) == Base(f2);
    }
  }

  /** How writing one entry ends: os.OpenFile fails, the JSON encoder fails, or the line is written. */
  datatype LogWrite = OpenFailed | EncodeFailed | Written

  /** `files` once `name` is opened with O_CREATE: a missing file now exists, empty; nothing else changes. */
  function CreateIfMissing(files: map<string, seq<LogEntry>>, name: string): (r: map<string, seq<LogEntry>>)
    ensures r.Keys == files.Keys + {name}
    ensures name !in files ==> r[name] == []
    ensures forall f :: f in files ==> r[f] == files[f]
  {
    if name in files then files else files[name := []]
  }

  /** `files` after one entry is appended to `name` with O_APPEND|O_CREATE. */
  function AppendEntry(files: map<string, seq<LogEntry>>, name: string, entry: LogEntry): (r: map<string, seq<LogEntry>>)
    ensures r.Keys == files.Keys + {name}
    ensures r[name] == (if name in files then files[name] else []) + [entry]
    ensures forall f :: f in files && f != name ==> r[f] == files[f]
  {
    files[name := (if name in files then files[name] else []) + [entry]]
  }

  /** The log directory of the server and the files in it. */
  class LogDirectory {
    const logDir: string
    var files: map<string, seq<LogEntry>>

    constructor (dir: string, initial: map<string, seq<LogEntry>>)
      ensures logDir == dir && files == initial
    {
      logDir := dir;
      files := initial;
    }

    /**
     * Server.logRequest at `now`, ending as `result` says. When the file
     * does not open, nothing changes. Once it is open it exists, created
     * empty if it was missing; when the encoder then fails the entry is not
     * added, and otherwise it becomes the last line of the current hour's file.
     */
    method LogRequest(entry: LogEntry, now: Moment, result: LogWrite)
      requires IsCleanAbs(logDir) && ValidMoment(now)
      modifies this
      ensures result == OpenFailed ==> files == old(files)
      ensures result == EncodeFailed ==> files == CreateIfMissing(old(files), CurrentLogFile(logDir, now))
      ensures result == Written ==> files == AppendEntry(old(files), CurrentLogFile(logDir, now), entry)
    {
      var logFile := CurrentLogFile(logDir, now);
      if result == OpenFailed {
        return;
      }
      if result == EncodeFailed {
        files := CreateIfMissing(files, logFile);
        return;
      }
      files := AppendEntry(files, logFile, entry);
    }
  }
}
