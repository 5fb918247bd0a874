/**
 * PackageClassLoader: a class loader with no jar behind it, defining classes
 * from a fixed map from class name to class bytes, such as the bytes a
 * JarBytesClassLoader recorded.
 */
module PackageLoader {
  import opened Wrappers
  import opened Loading
  import JarLoader

  class PackageClassLoader<D> {
    /** `cachedClasses`: the defined-class cache. */
    var cachedClasses: map<string, D>
    /** `classBytesViaLongFormClassName`: fixed at construction and only ever read. */
    const classBytesViaLongFormClassName: map<string, Bytes>
    /** Every successful `defineClass` call this loader has made, in order. */
    ghost var defines: seq<Definition<D>>

    ghost predicate Valid()
      reads this
    {
      DefinedAtMostOnce(defines) && LogAgrees(defines, cachedClasses, classBytesViaLongFormClassName)
    }

    constructor (classBytesViaLongFormClassName: map<string, Bytes>)
      ensures Valid()
      ensures this.classBytesViaLongFormClassName == classBytesViaLongFormClassName
      ensures cachedClasses == map[] && defines == []
    {
      this.classBytesViaLongFormClassName := classBytesViaLongFormClassName;
      cachedClasses := map[];
      defines := [];
    }

    /**
     * `findClass`: a compute-if-absent on the class cache, defining a class
     * from the bytes the map holds for its name. A name the map lacks fails
     * and leaves the cache as it was.
     */
    method FindClass(longFormClassName: string, defineClass: (string, Bytes) -> Result<D, DefineError>)
      returns (r: Result<D, LoadError>)
      requires Valid()
      modifies this
      ensures Valid()
      ensures longFormClassName in old(cachedClasses) ==>
        && r == Success(old(cachedClasses)[longFormClassName])
        && cachedClasses == old(cachedClasses) && defines == old(defines)
      ensures longFormClassName !in old(cachedClasses) && longFormClassName !in classBytesViaLongFormClassName ==>
        && r == Failure(ClassBytesNotFound(longFormClassName))
        && cachedClasses == old(cachedClasses) && defines == old(defines)
      ensures longFormClassName !in old(cachedClasses) && longFormClassName in classBytesViaLongFormClassName ==>
        && var bytes := classBytesViaLongFormClassName[longFormClassName];
        && r == DefineOutcome(longFormClassName, bytes, defineClass)
        && (r.Success? ==>
              && cachedClasses == old(cachedClasses)[longFormClassName := r.value]
              && defines == old(defines) + [Definition(longFormClassName, bytes, r.value)])
        && (r.Failure? ==> cachedClasses == old(cachedClasses) && defines == old(defines))
    {
      var name := longFormClassName;
      if name in cachedClasses {
        return Success(cachedClasses[name]);
      }
      if name !in classBytesViaLongFormClassName {
        // `get` gives null and `classBytes.length` throws, so computeIfAbsent records nothing
        return Failure(ClassBytesNotFound(name));
      }
      var classBytes := classBytesViaLongFormClassName[name];
      var defined := defineClass(name, classBytes);
      if defined.Failure? {
        return Failure(DefineFailed(name, defined.error));
      }
      LogDefinition(defines, cachedClasses, classBytesViaLongFormClassName, Definition(name, classBytes, defined.value));
      cachedClasses := cachedClasses[name := defined.value];
      defines := defines + [Definition(name, classBytes, defined.value)];
      return Success(defined.value);
    }
  }

  /**
   * A package built from a jar loader's recorded bytes stands without the
   * jars: a fresh PackageClassLoader defines every class the jar loader
   * recorded bytes for from exactly those bytes (so a class the jar loader
   * defined itself is defined again from the bytes it used), and fails for
   * every name without recorded bytes, such as a class the jar loader took
   * from the JVM on its first lookup.
   */
  method PackageIndependence<D>(jarLoader: JarLoader.JarBytesClassLoader<D>, name: string,
                                defineClass: (string, Bytes) -> Result<D, DefineError>)
    returns (r: Result<D, LoadError>)
    requires jarLoader.Valid()
    ensures name in jarLoader.cachedClassBytes ==>
      r == DefineOutcome(name, jarLoader.cachedClassBytes[name], defineClass)
    ensures forall d :: d in jarLoader.defines && d.name == name ==> r == DefineOutcome(name, d.bytes, defineClass)
    ensures name !in jarLoader.cachedClassBytes ==> r == Failure(ClassBytesNotFound(name))
  {
    var packageLoader := new PackageClassLoader(jarLoader.GetCachedClassBytes());
    r := packageLoader.FindClass(name, defineClass);
  }
}
