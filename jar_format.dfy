/**
 * The parts of JarBytesClassLoader.java that work on one jar's bytes or on a
 * class name, without touching the loader's state: reading the entry names
 * of a jar, finding an entry by name, and deriving a class's entry path.
 *
 * ZIP decoding itself is not modelled: a jar's bytes are represented by what
 * `ZipInputStream` yields when it reads them.
 */
module JarFormat {
  import opened Wrappers
  import opened Loading

  /** One ZIP entry: its name (with '/' separators) and its uncompressed content. */
  datatype Entry = Entry(name: string, bytes: Bytes)

  /**
   * A jar's bytes, seen through `ZipInputStream`: the entries `getNextEntry`
   * yields in order, and whether the stream then ends cleanly (`wellFormed`)
   * or `getNextEntry` throws a ZipException/IOException instead.
   */
  datatype JarBytes = JarBytes(entries: seq<Entry>, wellFormed: bool)

  /** Why a jar could not be read. */
  datatype ZipError = MalformedJar

  /** The set of names among some entries. */
  ghost function EntryNames(entries: seq<Entry>): set<string>
  {
    set e | e in entries :: e.name
  }

  /** Every entry name of a jar, class files and other resources alike. */
  ghost function Names(jar: JarBytes): set<string>
  {
    EntryNames(jar.entries)
  }

  /**
   * `extractClassNamesFromJarByteBlob`: walk the jar's entries and collect
   * their names; a jar the ZIP reader cannot finish fails as a whole.
   */
  method ExtractClassNamesFromJarByteBlob(jarByteBlob: JarBytes) returns (r: Result<set<string>, ZipError>)
    ensures r.Success? <==> jarByteBlob.wellFormed
    ensures r.Success? ==> r.value == Names(jarByteBlob)
  {
    var entries := jarByteBlob.entries;
    var toReturn: set<string> := {};
    var i := 0;
    while i < |entries|
      invariant 0 <= i <= |entries|
      invariant toReturn == EntryNames(entries[..i])
    {
      assert entries[..i + 1] == entries[..i] + [entries[i]];
      toReturn := toReturn + {entries[i].name};
      i := i + 1;
    }
    assert entries[..i] == entries;
    if !jarByteBlob.wellFormed {
      return Failure(MalformedJar);
    }
    return Success(toReturn);
  }

  /** `i` is the position of the first entry called `name`. */
  ghost predicate FirstNamed(entries: seq<Entry>, name: string, i: int)
  {
    && 0 <= i < |entries|
    && entries[i].name == name
    && forall j :: 0 <= j < i ==> entries[j].name != name
  }

  /**
   * The content of the first entry called `name`, as a sequential read of the
   * ZIP stream finds it; None when the jar has no such entry.
   */
  function FirstEntry(entries: seq<Entry>, name: string): (r: Option<Bytes>)
    ensures r.Some? <==> name in EntryNames(entries)
    ensures r.Some? ==> exists i :: FirstNamed(entries, name, i) && entries[i].bytes == r.value
  {
    if entries == [] then None
    else if entries[0].name == name then
      assert FirstNamed(entries, name, 0);
      Some(entries[0].bytes)
    else
      var rest := FirstEntry(entries[1..], name);
      assert EntryNames(entries) == {entries[0].name} + EntryNames(entries[1..]) by {
        assert forall e :: e in entries <==> e == entries[0] || e in entries[1..];
      }
      FirstNamedShift(entries, name, rest);
      rest
  }

  /** A first match in the tail, after a head with another name, is a first match of the whole. */
  lemma FirstNamedShift(entries: seq<Entry>, name: string, found: Option<Bytes>)
    requires entries != [] && entries[0].name != name
    requires found.Some? ==> exists i :: FirstNamed(entries[1..], name, i) && entries[1..][i].bytes == found.value
    ensures found.Some? ==> exists i :: FirstNamed(entries, name, i) && entries[i].bytes == found.value
  {
  }

  /**
   * The entry scan of `getResourceAsStream`: read entries until one is called
   * `name`; the stream is then positioned on that entry's content.
   */
  method OpenEntry(jarBytes: JarBytes, name: string) returns (r: Option<Bytes>)
    ensures r == FirstEntry(jarBytes.entries, name)
  {
    var entries := jarBytes.entries;
    var i := 0;
    while i < |entries|
      invariant 0 <= i <= |entries|
      invariant FirstEntry(entries[i..], name) == FirstEntry(entries, name)
    {
      if entries[i].name == name {
        return Some(entries[i].bytes);
      }
      assert entries[i..][1..] == entries[i + 1..];
      i := i + 1;
    }
    return None;
  }

  /** `className.replace(".", "/")`. */
  function ReplaceDots(className: string): (r: string)
    ensures |r| == |className|
    ensures forall i :: 0 <= i < |r| ==> r[i] == if className[i] == '.' then '/' else className[i]
  {
    if className == [] then []
    else [if className[0] == '.' then '/' else className[0]] + ReplaceDots(className[1..])
  }

  /** The jar entry path of a class: dots become slashes and ".class" is appended. */
  function ClassPath(className: string): (r: string)
    ensures |r| == |className| + 6
    ensures r[|className|..] == ".class"
    ensures forall i :: 0 <= i < |className| ==> r[i] != '.'
    ensures forall i :: 0 <= i < |className| ==> r[i] == if className[i] == '.' then '/' else className[i]
  {
    ReplaceDots(className) + ".class"
  }

  /**
   * Two class names without '/' (every Java binary name) never share an
   * entry path, so a class is only ever read from its own entry.
   */
  lemma ClassPathInjective(a: string, b: string)
    requires '/' !in a && '/' !in b
    requires ClassPath(a) == ClassPath(b)
    ensures a == b
  {
  }

  /** The derivation on concrete names: "a.B" is read from "a/B.class", and "a.B2" is not. */
  lemma ClassPathExample()
    ensures ClassPath("a.B") == "a/B.class"
    ensures ClassPath("a.B2") != "a/B.class"
  {
  }
}
