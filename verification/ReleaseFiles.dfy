/** The files of a release directory and the names both sides know them by. */
module ReleaseFiles {
  import opened Bytes

  datatype File = Bin(base: seq<Byte>) | Sha(base: seq<Byte>) | VersionFile

  /** The name a file is published and asked for under. */
  function FileName(file: File): seq<Byte> {
    match file
    case Bin(base) => base + Ascii(".bin")
    case Sha(base) => base + Ascii(".bin.sha256")
    case VersionFile => Ascii("version")
  }

  /** No two files share a name. */
  lemma FileNameOnce(f: File, g: File)
    requires FileName(f) == FileName(g)
    ensures f == g
  {
    var a, b := FileName(f), FileName(g);
    assert |a| >= 4 && a[|a| - 4..] == b[|b| - 4..];
    NameEnd(f);
    NameEnd(g);
  }

  /** The fourth byte from the end tells the kinds apart, and the suffix can be cut off again. */
  lemma NameEnd(f: File)
    ensures var a := FileName(f);
            |a| >= 4 && match f
            case Bin(base) => a[|a| - 4] == 46 && a[..|a| - 4] == base
            case Sha(base) => a[|a| - 4] == 97 && |a| >= 11 && a[..|a| - 11] == base
            case VersionFile => a[|a| - 4] == 115
  {
  }
}
