# JarBytesClassLoader, modelled in Dafny

The repository provides two Java class loaders.

- `JarBytesClassLoader` loads classes from jars held in memory as byte arrays. It keeps three tables:
  - the registered jars, keyed by the set of entry names each jar contains;
  - a cache of the classes it has defined, keyed by class name;
  - a record of the raw bytes each class was read from.
- `PackageClassLoader` defines classes from a fixed map from class name to bytes. Fed with the bytes a `JarBytesClassLoader` recorded, it serves those classes without the original jars.

The model has five modules:

- `Wrappers`: `Option`, `Result` and `Outcome`. These stand for Java's nulls and thrown exceptions.
- `Loading`: what both loaders share.
  - Raw bytes, and the errors a lookup can end with.
  - A ghost log of every successful `defineClass` call. The log is the probe that shows each name is defined at most once.
- `JarFormat`: the stateless parts of `JarBytesClassLoader.java`.
  - A jar's bytes are represented by what `ZipInputStream` yields when it reads them: the entries in order, plus whether the stream ends cleanly.
  - This module also holds the entry-name scan, the entry lookup and the derivation of a class's entry path.
- `JarLoader`: the class `JarBytesClassLoader`, with the three tables as fields and an invariant `Valid()`. `Valid()` states four things:
  - every registered jar is well formed and is registered under exactly its own entry names;
  - every recorded class's entry path is listed by a registered jar;
  - no class is defined twice;
  - each defined class is the cached one, built from exactly the recorded bytes.
- `PackageLoader`: the class `PackageClassLoader`, with the same invariant over its fixed map. It also holds a client method that builds a package from a jar loader's recorded bytes.

The JVM's `findLoadedClass` and `defineClass` are passed to `FindClass` as functions. The JVM's `Class` type is the type parameter `D`, left opaque.

Each failure surfaces as an explicit error:

- No bytes found: `ClassBytesNotFound`. In Java this appears as a `NullPointerException`, either from `put(name, null)` or from `.length` on null.
- `defineClass` throws: `DefineFailed`.
- Malformed jar at registration: `MalformedJar`.

## Model

| member | source | states |
|---|---|---|
| `JarFormat.ExtractClassNamesFromJarByteBlob` | src/adp/io/jars/JarBytesClassLoader.java:30-42 | Succeeds exactly when the ZIP reader gets through the jar. It then returns exactly the set of entry names, resources included. A malformed jar fails as a whole. |
| `JarFormat.FirstEntry` | src/adp/io/jars/JarBytesClassLoader.java:84-89 | Finds an entry exactly when some entry has the name. The bytes it returns are those of the first entry with that name. |
| `JarFormat.OpenEntry` | src/adp/io/jars/JarBytesClassLoader.java:84-91 | The sequential entry scan returns the content of the first entry with the requested name, or nothing. |
| `JarFormat.ReplaceDots` | src/adp/io/jars/JarBytesClassLoader.java:112 | Same length as the class name. Each `.` becomes `/` and every other character is kept. |
| `JarFormat.ClassPath` | src/adp/io/jars/JarBytesClassLoader.java:112 | The entry path is the class name with dots replaced by slashes, followed by `.class`. No dot remains in the part taken from the class name. |
| `JarFormat.ClassPathInjective` | src/adp/io/jars/JarBytesClassLoader.java:112 | Two class names without `/` that derive the same entry path are equal. So a class is read only from its own entry. |
| `JarFormat.ClassPathExample` | src/adp/io/jars/JarBytesClassLoader.java:112 | `a.B` is looked up at `a/B.class`. `a.B2` is not. |
| `JarLoader.RegisteredNamesAfterAdd` | src/adp/io/jars/JarBytesClassLoader.java:26-28 | Storing a jar under a name set, new or replacing, adds exactly that set to the supported names. |
| `JarLoader.JarBytesClassLoader.constructor` | src/adp/io/jars/JarBytesClassLoader.java:17-24 | All three tables start empty, and the invariant holds. |
| `JarLoader.JarBytesClassLoader.AddJarBytes` | src/adp/io/jars/JarBytesClassLoader.java:26-28 | A malformed jar fails and nothing changes. Otherwise the jar is stored under its entry-name set, replacing any jar with an equal set. Supported names become the old ones plus exactly the jar's entry names. The caches are untouched. |
| `JarLoader.JarBytesClassLoader.SupportsClass` | src/adp/io/jars/JarBytesClassLoader.java:44-46 | True if and only if the name is in the union of the registered name sets. It reads state and changes none. The argument is compared against entry paths such as `a/B.class`, not binary class names such as `a.B`. |
| `JarLoader.JarBytesClassLoader.GetResourceAsStream` | src/adp/io/jars/JarBytesClassLoader.java:71-105 | Returns content exactly when some registered jar lists the name. That content is the first entry with the name in some registered jar whose set contains the name. |
| `JarLoader.JarBytesClassLoader.GetClassByteBlob` | src/adp/io/jars/JarBytesClassLoader.java:107-128 | Returns the bytes at the class's derived entry path in some registered jar. Returns nothing exactly when no registered jar lists that path. |
| `JarLoader.JarBytesClassLoader.FindClass` | src/adp/io/jars/JarBytesClassLoader.java:48-69 | Compute-if-absent, in four cases. A cached class is returned and nothing changes. A class the JVM already has is cached, and no bytes are recorded. A missing entry fails and leaves every table unchanged. Otherwise the found bytes are stored under the name, replacing only that name's entry, and are defined. On success the class is cached and logged once. On a define failure the recorded bytes stay, but nothing is cached. |
| `JarLoader.JarBytesClassLoader.GetCachedClassBytes` | src/adp/io/jars/JarBytesClassLoader.java:141-143 | Every recorded name's entry path is listed by a registered jar. Every class this loader defined appears with exactly the bytes it was defined from. |
| `JarLoader.RepeatFindClass` | src/adp/io/jars/JarBytesClassLoader.java:51 | Once a lookup succeeds, a second lookup returns the same class whatever the JVM now answers. The two calls define at most once, and no name is ever defined twice. |
| `Loading.AtMostOneDefinePerName` | src/adp/io/jars/JarBytesClassLoader.java:51-67 | In a define log without repeated names, each name is defined at most once. It is defined exactly once if and only if the log holds it. |
| `PackageLoader.PackageClassLoader.constructor` | src/adp/io/jars/PackageClassLoader.java:9-13 | Stores the given map, which is a constant field and never written afterwards. The cache starts empty. |
| `PackageLoader.PackageClassLoader.FindClass` | src/adp/io/jars/PackageClassLoader.java:15-28 | A cached class is returned unchanged. A name absent from the map fails, and nothing is cached. A name in the map is defined from exactly its mapped bytes; it is cached and logged on success, and nothing is cached on failure. |
| `PackageLoader.PackageIndependence` | src/adp/io/jars/PackageClassLoader.java:22-24 | A fresh package loader built from a jar loader's recorded bytes defines each recorded name from exactly those bytes. A class the jar loader defined is defined from the very bytes the jar loader used. Any other name fails, that is, every name without recorded bytes, such as a class taken from the JVM on its first lookup. |

## Behaviour of the Java code worth noting

- **Registry.** `jarBytesViaSupportedClasses` is a `ConcurrentHashMap` keyed by entry-name set (src/adp/io/jars/JarBytesClassLoader.java:18, :27). A jar whose name set equals an existing key replaces that jar, and `getResourceAsStream` visits jars in no defined order (:74). The model stores jars in a map keyed by name set and picks jars in an unspecified order.
- **Recorded bytes.** `getCachedClassBytes` returns an unmodifiable live view of the map (:142), not a copy.
- **Classes adopted from the JVM.** A class returned by `findLoadedClass` is cached without recorded bytes from that call (:56-57). A package cannot define it, unless an earlier attempt recorded its bytes (:61) before `defineClass` failed (:65). `PackageIndependence` states both cases.
- **Failed reads.** When reading the entry fails, `getClassByteBlob` returns null (:119-126). `findClass` then throws at `put` (:61), exactly as for a missing entry.
- **Keys versus values of the recorded bytes.** The keys of the recorded-bytes table only ever grow. A value can still be overwritten in one case: a retry after a `defineClass` failure rewrites that name's entry. `FindClass` states the update exactly.

## Left out

- ZIP decoding (`ZipInputStream`, `ZipEntry`). A jar is its sequence of entries as the reader yields them, plus a flag saying whether the reader ends cleanly.
- Failures while inflating one entry's content are not modelled. Entry content is always readable once the entry is reached. As a result, the `catch` in `getResourceAsStream` and the read failures in `getClassByteBlob` cannot occur in the model.
- JarLoader.JarBytesClassLoader.AddJarBytes: jar byte arrays are taken as immutable values. Java stores the caller's `byte[]` without copying it, and `PackageClassLoader` keeps the caller's `Map` by reference. Mutation of either after registration or construction is not modelled. The invariant that each jar is stored under exactly its own entry names depends on this. Without it, `supportsClass` could be true for a name that the entry scan no longer finds, and `getResourceAsStream` could return null. `GetResourceAsStream` does go on to the next jar when the scan misses, as the Java code does.
- `GetResourceAsStream` returns the entry's content, not a stream. The byte-copy loop and the closing of streams are left out.
- `GetResourceAsStream` does not say which jar is used when several registered jars list the name, because the Java code iterates a `ConcurrentHashMap` whose order is unspecified.
- `GetCachedClassBytes` returns the table's value when called. The Java method returns a live, unmodifiable view, and Dafny maps have no aliasing to express that.
- The JVM's `findLoadedClass` and `defineClass` are parameters. Class linking, class identity across loaders and the `ClassLoader` parent chain are not modelled.
- JarLoader.JarBytesClassLoader.FindClass: `defineClass` is a pure parameter here. In the JVM, defining a class resolves its superclass and interfaces through this loader's `loadClass` and `findClass`. That nested `computeIfAbsent` on `cachedClasses` either caches and records those other names too, or throws `IllegalStateException("Recursive update")`. For example, defining `a.A` that extends `a.S` also records `a.S`. This re-entry is not modelled. The frame stating that only the requested name's entries change, and that `defines` grows by at most one, holds only in the model.
- PackageLoader.PackageClassLoader.FindClass: `defineClass` re-entering the loader for supertypes is not modelled, as for the jar loader. The frame stating that only the requested name is cached, and that `defines` grows by at most one, holds only in the model.
- Concurrency: `ConcurrentHashMap`, the atomicity of `computeIfAbsent`, and lookups of distinct names that do not block each other. Every operation is modelled as one sequential step.
- Logging to `System.out` and `printStackTrace` are output only and are left out.
- Java exception types: each failure is an error value of the model (`ClassBytesNotFound`, `DefineFailed`, `MalformedJar`). The exception classes Java throws, such as `NullPointerException` or `ClassFormatError`, are not modelled.
