/**
 * JarBytesClassLoader: a class loader over jars held in memory as bytes.
 *
 * It keeps three tables: the registered jars keyed by the set of their entry
 * names, the classes it has produced keyed by class name, and the raw bytes
 * each class was read from (for assembling a package later). The JVM's
 * `findLoadedClass` and `defineClass` are passed in as functions; `D` is the
 * JVM's `Class` type, left opaque.
 */
module JarLoader {
  import opened Wrappers
  import opened Loading
  import opened JarFormat

  /** The registry: each jar's bytes under the set of its entry names. */
  type Registry = map<set<string>, JarBytes>

  /** Every name some registered jar contains. */
  ghost function RegisteredNames(jars: Registry): set<string>
  {
    set k, n | k in jars && n in k :: n
  }

  /** Registering a jar under `key` (new or replaced) adds exactly the names of `key`. */
  lemma RegisteredNamesAfterAdd(jars: Registry, key: set<string>, jar: JarBytes)
    ensures RegisteredNames(jars[key := jar]) == RegisteredNames(jars) + key
  {
  }

  /** `bytes` is the content of the first entry called `name` in some registered jar that lists `name`. */
  ghost predicate FoundIn(jars: Registry, name: string, bytes: Bytes)
  {
    exists k :: k in jars && name in k && FirstEntry(jars[k].entries, name) == Some(bytes)
  }

  class JarBytesClassLoader<D> {
    /** `jarBytesViaSupportedClasses`. */
    var jars: Registry
    /** `cachedClasses`: the defined-class cache. */
    var cachedClasses: map<string, D>
    /** `cachedClassBytes`: the bytes each class was read from. */
    var cachedClassBytes: map<string, Bytes>
    /** Every successful `defineClass` call this loader has made, in order. */
    ghost var defines: seq<Definition<D>>

    ghost predicate Valid()
      reads this
    {
      // a jar is registered only after its names were read, under exactly those names
      && (forall k :: k in jars ==> jars[k].wellFormed && Names(jars[k]) == k)
      // recorded bytes were read from the entry path of their class in a registered jar
      && (forall n :: n in cachedClassBytes ==> ClassPath(n) in RegisteredNames(jars))
      && DefinedAtMostOnce(defines)
      && LogAgrees(defines, cachedClasses, cachedClassBytes)
    }

    constructor ()
      ensures Valid()
      ensures jars == map[] && cachedClasses == map[] && cachedClassBytes == map[] && defines == []
    {
      jars, cachedClasses, cachedClassBytes := map[], map[], map[];
      defines := [];
    }

    /**
     * `addJarBytes`: read the jar's entry names and store the jar under them,
     * replacing a jar registered under the same set of names.
     */
    method AddJarBytes(jarBytes: JarBytes) returns (r: Outcome<ZipError>)
      requires Valid()
      modifies this
      ensures Valid()
      ensures r.Pass? <==> jarBytes.wellFormed
      ensures jars == if r.Pass? then old(jars)[Names(jarBytes) := jarBytes] else old(jars)
      ensures cachedClasses == old(cachedClasses) && cachedClassBytes == old(cachedClassBytes)
      ensures defines == old(defines)
      // afterwards exactly the jar's entry names are supported in addition to the earlier ones
      ensures forall n :: SupportsClass(n) <==> old(SupportsClass(n)) || (r.Pass? && n in Names(jarBytes))
    {
      var names := ExtractClassNamesFromJarByteBlob(jarBytes);
      if names.Failure? {
        return Fail(names.error);
      }
      RegisteredNamesAfterAdd(jars, names.value, jarBytes);
      jars := jars[names.value := jarBytes];
      return Pass;
    }

    /** `supportsClass`: whether some registered jar lists the name. */
    function SupportsClass(className: string): (r: bool)
      reads this
      ensures r <==> className in RegisteredNames(jars)
    {
      exists k :: k in jars && className in k
    }

    /**
     * `getResourceAsStream`: look through the registered jars, in no
     * particular order, for one whose names include `name`, and return the
     * content of that jar's first entry called `name`.
     */
    method GetResourceAsStream(name: string) returns (r: Option<Bytes>)
      requires Valid()
      ensures r.Some? <==> name in RegisteredNames(jars)
      ensures r.Some? ==> FoundIn(jars, name, r.value)
    {
      var remaining := jars.Keys;
      while remaining != {}
        invariant remaining <= jars.Keys
        invariant forall k :: k in jars && k !in remaining ==> FirstEntry(jars[k].entries, name).None?
        decreases remaining
      {
        var supportedClasses :| supportedClasses in remaining;
        if name in supportedClasses {
          r := OpenEntry(jars[supportedClasses], name);
          if r.Some? {
            return;
          }
          // entry not found after all: the stream is closed and the next jar is tried
        }
        remaining := remaining - {supportedClasses};
      }
      return None;
    }

    /** `getClassByteBlob`: the bytes at the class's entry path, or None when no jar has it. */
    method GetClassByteBlob(className: string) returns (r: Option<Bytes>)
      requires Valid()
      ensures r.Some? <==> SupportsClass(ClassPath(className))
      ensures r.Some? ==> FoundIn(jars, ClassPath(className), r.value)
    {
      r := GetResourceAsStream(ClassPath(className));
    }

    /**
     * `findClass`: a compute-if-absent on the class cache. A cached class is
     * returned as is; otherwise a class the JVM already loaded is adopted;
     * otherwise the class's bytes are read from a jar, recorded, and defined.
     * Nothing is cached when the computation fails.
     */
    method FindClass(longFormClassName: string,
                     findLoadedClass: string -> Option<D>,
                     defineClass: (string, Bytes) -> Result<D, DefineError>)
      returns (r: Result<D, LoadError>)
      requires Valid()
      modifies this
      ensures Valid()
      ensures jars == old(jars)
      // a cached class: returned without asking the JVM or defining again
      ensures longFormClassName in old(cachedClasses) ==>
        && r == Success(old(cachedClasses)[longFormClassName])
        && cachedClasses == old(cachedClasses) && cachedClassBytes == old(cachedClassBytes)
        && defines == old(defines)
      // a class the JVM already has: cached, and no bytes recorded
      ensures longFormClassName !in old(cachedClasses) && findLoadedClass(longFormClassName).Some? ==>
        && r == Success(findLoadedClass(longFormClassName).value)
        && cachedClasses == old(cachedClasses)[longFormClassName := r.value]
        && cachedClassBytes == old(cachedClassBytes) && defines == old(defines)
      // no registered jar has the entry: a failure, and nothing changes
      ensures && longFormClassName !in old(cachedClasses) && findLoadedClass(longFormClassName).None?
              && !SupportsClass(ClassPath(longFormClassName)) ==>
        && r == Failure(ClassBytesNotFound(longFormClassName))
        && cachedClasses == old(cachedClasses) && cachedClassBytes == old(cachedClassBytes)
        && defines == old(defines)
      // the entry was found: its bytes are recorded, then defined
      ensures && longFormClassName !in old(cachedClasses) && findLoadedClass(longFormClassName).None?
              && SupportsClass(ClassPath(longFormClassName)) ==>
        && longFormClassName in cachedClassBytes
        && var bytes := cachedClassBytes[longFormClassName];
        && FoundIn(jars, ClassPath(longFormClassName), bytes)
        && cachedClassBytes == old(cachedClassBytes)[longFormClassName := bytes]
        && r == DefineOutcome(longFormClassName, bytes, defineClass)
        && (r.Success? ==>
              && cachedClasses == old(cachedClasses)[longFormClassName := r.value]
              && defines == old(defines) + [Definition(longFormClassName, bytes, r.value)])
        && (r.Failure? ==> cachedClasses == old(cachedClasses) && defines == old(defines))
    {
      var name := longFormClassName;
      if name in cachedClasses {
        return Success(cachedClasses[name]);
      }
      var c := findLoadedClass(name);
      if c.Some? {
        LogAgreesCachingNew(defines, cachedClasses, cachedClassBytes, name, c.value);
        cachedClasses := cachedClasses[name := c.value];
        return Success(c.value);
      }
      var classBytes := GetClassByteBlob(name);
      if classBytes.None? {
        // `cachedClassBytes.put(name, null)` throws, so computeIfAbsent records nothing
        return Failure(ClassBytesNotFound(name));
      }
      LogAgreesRecordingNew(defines, cachedClasses, cachedClassBytes, name, classBytes.value);
      cachedClassBytes := cachedClassBytes[name := classBytes.value];
      var defined := defineClass(name, classBytes.value);
      if defined.Failure? {
        return Failure(DefineFailed(name, defined.error));
      }
      LogDefinition(defines, cachedClasses, cachedClassBytes, Definition(name, classBytes.value, defined.value));
      cachedClasses := cachedClasses[name := defined.value];
      defines := defines + [Definition(name, classBytes.value, defined.value)];
      return Success(defined.value);
    }

    /**
     * `getCachedClassBytes`: the bytes recorded so far. Each was read from its
     * class's entry path in a registered jar, and each class this loader
     * defined was defined from exactly the bytes recorded under its name.
     */
    function GetCachedClassBytes(): (m: map<string, Bytes>)
      reads this
      requires Valid()
      ensures forall n :: n in m ==> ClassPath(n) in RegisteredNames(jars)
      ensures forall d :: d in defines ==> d.name in m && m[d.name] == d.bytes
    {
      cachedClassBytes
    }
  }

  /**
   * `findClass` is idempotent: once a call succeeds, a second call for the
   * same name returns the same class whatever the JVM would now answer, and
   * the two calls together define the class at most once.
   */
  method RepeatFindClass<D>(loader: JarBytesClassLoader<D>, name: string,
                            findLoaded1: string -> Option<D>, define1: (string, Bytes) -> Result<D, DefineError>,
                            findLoaded2: string -> Option<D>, define2: (string, Bytes) -> Result<D, DefineError>)
    returns (r1: Result<D, LoadError>, r2: Result<D, LoadError>)
    requires loader.Valid()
    modifies loader
    ensures loader.Valid()
    ensures r1.Success? ==> r2 == r1
    ensures r1.Success? ==> |loader.defines| <= |old(loader.defines)| + 1
    ensures DefineCount(loader.defines, name) <= 1
  {
    r1 := loader.FindClass(name, findLoaded1, define1);
    r2 := loader.FindClass(name, findLoaded2, define2);
    AtMostOneDefinePerName(loader.defines, name);
  }
}
