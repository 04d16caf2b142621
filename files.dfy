/** The part of a filesystem the menu tool sees: record files holding one menu entry each,
    the directories beside them that hold their nested entries, and the order in which a
    directory lists its record files. */
module Files {

  import opened Wrappers
  import opened Strings

  /** A filesystem path as its list of components, the first one being the drive or root. */
  type Path = seq<string>

  /** The separator of Windows paths. */
  const Sep: string := "\\"

  /** The extension of record files. */
  const Suffix: string := ".frmb"

  /** The record file of the entry whose stem is `stem`, inside `dir`. */
  function RecordPath(dir: Path, stem: string): Path
  {
    dir + [stem + Suffix]
  }

  /** The directory holding `p`. */
  function Parent(p: Path): Path
  {
    if p == [] then [] else p[..|p| - 1]
  }

  /** The last component of `p`, without the record extension when it has it. A name that
      is only the extension, `.frmb`, has no suffix: a leading dot starts a hidden name, not
      an extension, so it is its own stem. */
  function Stem(p: Path): string
  {
    if p == [] then ""
    else
      var last := p[|p| - 1];
      if |last| > |Suffix| && last[|last| - |Suffix|..] == Suffix then last[..|last| - |Suffix|]
      else last
  }

  /** The stem of the record file `stem.frmb`: `stem`, except for the file named `.frmb`. */
  function FileStem(stem: string): string
  {
    if stem == "" then Suffix else stem
  }

  /** The directory beside the record file of `stem` in `dir`, where the entries nested under
      it live: the record's path with its suffix taken off. */
  function EntryDir(dir: Path, stem: string): Path
  {
    dir + [FileStem(stem)]
  }

  /** A record file sits in the directory it was put in, and its stem is the one it was named
      after, unless it is the hidden file `.frmb`, whose stem is the whole name; the path
      without suffix is the entry's directory. */
  lemma RecordPathParts(dir: Path, stem: string)
    ensures Parent(RecordPath(dir, stem)) == dir
    ensures Stem(RecordPath(dir, stem)) == FileStem(stem)
    ensures stem != "" ==> Stem(RecordPath(dir, stem)) == stem
    ensures Parent(RecordPath(dir, stem)) + [Stem(RecordPath(dir, stem))] == EntryDir(dir, stem)
    ensures |RecordPath(dir, stem)| == |dir| + 1
  {
    var p := RecordPath(dir, stem);
    assert p[..|p| - 1] == dir;
    var last := stem + Suffix;
    assert last[|last| - |Suffix|..] == Suffix;
    assert last[..|last| - |Suffix|] == stem;
  }

  /** The text of a path: its components joined by the separator (`.` for the empty path). */
  function Render(p: Path): string
  {
    if p == [] then "." else JoinWith(Sep, p)
  }

  /** The fields of a record file; a field the file does not set is `None`. */
  datatype Record = Record(
    name: Option<string>,
    icon: Option<string>,
    command: Option<seq<string>>,
    paths: Option<seq<string>>,
    enabled: Option<bool>)

  /** The record files by path, the existing directories, and for each directory the stems of
      its record files in the order a listing of the directory gives them. */
  datatype Disk = Disk(records: map<Path, Record>, dirs: set<Path>, listing: map<Path, seq<string>>)
  {
    /** The stems of the record files of `dir`, in listing order; none if `dir` lists nothing. */
    function Listing(dir: Path): seq<string>
    {
      if dir in listing then listing[dir] else []
    }

    /** The record file at `p`, if there is one. */
    function RecordAt(p: Path): Option<Record>
    {
      if p in records then Some(records[p]) else None
    }
  }
}
