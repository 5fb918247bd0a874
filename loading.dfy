/**
 * Definitions shared by both class loaders: raw class bytes, the errors a
 * lookup can end with, and the ghost log of the class definitions a loader
 * has performed (the probe that shows each name is defined at most once).
 */
module Loading {
  import opened Wrappers

  /** Raw bytes, as held in a Java `byte[]`. */
  type Bytes = seq<bv8>

  /** Why the JVM's `defineClass` refused the bytes (ClassFormatError, LinkageError, ...). */
  datatype DefineError = DefineError(reason: string)

  /** How a `findClass` call fails. */
  datatype LoadError =
      /** No class bytes were available for the name; in Java this surfaces as a
          NullPointerException (a null put into a ConcurrentHashMap, or `.length` on null). */
    | ClassBytesNotFound(className: string)
      /** The bytes were found but `defineClass` threw. */
    | DefineFailed(className: string, cause: DefineError)

  /** One successful call of `defineClass`: the name, the exact bytes given to it and the class it produced. */
  datatype Definition<D> = Definition(name: string, bytes: Bytes, def: D)

  /** What `findClass` returns when it defines `name` from `bytes`. */
  function DefineOutcome<D>(name: string, bytes: Bytes, define: (string, Bytes) -> Result<D, DefineError>): Result<D, LoadError>
  {
    match define(name, bytes)
    case Success(d) => Success(d)
    case Failure(e) => Failure(DefineFailed(name, e))
  }

  /** No name occurs twice in a log of definitions. */
  ghost predicate DefinedAtMostOnce<D>(log: seq<Definition<D>>)
  {
    forall i, j :: 0 <= i < j < |log| ==> log[i].name != log[j].name
  }

  /** Every logged definition is the one cached under its name, and was made from the bytes recorded under it. */
  ghost predicate LogAgrees<D>(log: seq<Definition<D>>, classes: map<string, D>, classBytes: map<string, Bytes>)
  {
    forall d :: d in log ==>
      && d.name in classes && classes[d.name] == d.def
      && d.name in classBytes && classBytes[d.name] == d.bytes
  }

  /** How many times `name` was defined according to `log`. */
  function DefineCount<D>(log: seq<Definition<D>>, name: string): nat
  {
    if log == [] then 0
    else (if log[0].name == name then 1 else 0) + DefineCount(log[1..], name)
  }

  /** A log without repeated names counts at most one definition per name, and exactly one for a name it holds. */
  lemma {:induction false} AtMostOneDefinePerName<D>(log: seq<Definition<D>>, name: string)
    requires DefinedAtMostOnce(log)
    ensures DefineCount(log, name) <= 1
    ensures DefineCount(log, name) == 1 <==> exists d :: d in log && d.name == name
  {
    if log != [] {
      assert DefinedAtMostOnce(log[1..]) by {
        forall i, j | 0 <= i < j < |log[1..]| ensures log[1..][i].name != log[1..][j].name {
          assert log[1..][i] == log[i + 1] && log[1..][j] == log[j + 1];
        }
      }
      AtMostOneDefinePerName(log[1..], name);
      if log[0].name == name {
        NotInRest(log, name);
      }
      forall d | d in log && d.name == name && d != log[0] ensures d in log[1..] { }
    }
  }

  /** In a log without repeats, the head's name does not occur again. */
  lemma {:induction false} NotInRest<D>(log: seq<Definition<D>>, name: string)
    requires DefinedAtMostOnce(log) && log != [] && log[0].name == name
    ensures DefineCount(log[1..], name) == 0
  {
    ZeroCount(log[1..], name);
    forall d | d in log[1..] ensures d.name != name {
      var j :| 0 <= j < |log[1..]| && log[1..][j] == d;
      assert log[j + 1] == d;
    }
  }

  /** A name that no logged definition carries has count zero. */
  lemma {:induction false} ZeroCount<D>(log: seq<Definition<D>>, name: string)
    ensures DefineCount(log, name) == 0 <==> forall d :: d in log ==> d.name != name
  {
    if log != [] {
      ZeroCount(log[1..], name);
      assert forall d :: d in log <==> d == log[0] || d in log[1..];
    }
  }

  /** Caching a class under a name not yet cached keeps the log in agreement. */
  lemma LogAgreesCachingNew<D>(log: seq<Definition<D>>, classes: map<string, D>, classBytes: map<string, Bytes>,
                               name: string, def: D)
    requires LogAgrees(log, classes, classBytes) && name !in classes
    ensures LogAgrees(log, classes[name := def], classBytes)
  {
  }

  /** Recording bytes under a name not yet cached keeps the log in agreement. */
  lemma LogAgreesRecordingNew<D>(log: seq<Definition<D>>, classes: map<string, D>, classBytes: map<string, Bytes>,
                                 name: string, bytes: Bytes)
    requires LogAgrees(log, classes, classBytes) && name !in classes
    ensures LogAgrees(log, classes, classBytes[name := bytes])
  {
  }

  /** Logging the definition of a name not yet cached keeps the log free of repeats and in agreement. */
  lemma LogDefinition<D>(log: seq<Definition<D>>, classes: map<string, D>, classBytes: map<string, Bytes>,
                         d: Definition<D>)
    requires DefinedAtMostOnce(log) && LogAgrees(log, classes, classBytes)
    requires d.name !in classes && d.name in classBytes && classBytes[d.name] == d.bytes
    ensures DefinedAtMostOnce(log + [d])
    ensures LogAgrees(log + [d], classes[d.name := d.def], classBytes)
  {
  }
}
