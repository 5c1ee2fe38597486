# Pet owner: argument validation, photo versioning and photo file names

A pet owner is a process that keeps publishing photos of one pet through a linearizable atomic
reference of a Hazelcast cluster. It also counts down a latch so that readers learn of each new
photo. This project models the local, sequential logic of `RunPetOwner` and proves properties of it:

- **`getPet`** checks the command line. It needs exactly one argument. It trims that argument
  (Java `String.trim()` strips leading and trailing characters with code at most U+0020) and
  lower-cases it. It accepts the result only if it is `"cat"` or `"dog"`. Anything else raises
  `IllegalArgumentException` with the message `You must provide a single argument: cat|dog`.
- **Next version.** The next photo's id is 1 when no photo has been published yet. Otherwise it
  is the current id plus one in Java `int` arithmetic, which wraps from `Integer.MAX_VALUE` to
  `Integer.MIN_VALUE`.
- **File name.** A photo's file name is `pet + petIndex + ".png"`, where
  `petIndex = 1 + random.nextInt(15)`. The random draw is an input of the model.

This is how the project is laid out:

- `wrappers.dfy` holds `Option`, which stands for a nullable reference, and `Result`, which stands
  for a value or a thrown exception.
- `java_lang.dfy` (module `JavaLang`) holds the parts of `java.lang` the code relies on: 32-bit
  `int` addition, `trim()`, `toLowerCase()` on ASCII, and the decimal form of an `int` in a string
  concatenation. Each comes with a partner that pins it down: `trim()` has a uniqueness lemma, and
  the decimal form has a parser that reads it back.
- `pet_owner.dfy` (module `PetOwner`) holds the pet owner's own logic. The lemmas there tie
  `GetPet` to an independent description of the arguments it accepts. They also show that ids
  count 1, 2, 3, … across successive publications until they wrap, and that a file name can be
  split back into its pet and index.

Photo ids do not increase forever. The code computes them with Java `int` addition, so the id
after `Integer.MAX_VALUE` is `Integer.MIN_VALUE`. `NextVersion` and `PublishedIdWraps` state this,
and `PublishedIds` gives ids 1, 2, …, n up to that point.

## Model

| member | source | states |
|---|---|---|
| `JavaLang.AddInt` | pet-owner/src/main/java/com/hazelcast/juctalk/RunPetOwner.java:47 | Java `int` addition: the result agrees with the exact sum modulo 2^32. It equals the sum when the sum fits, and otherwise is the sum minus or plus 2^32. |
| `JavaLang.SkipLeading` | pet-owner/src/main/java/com/hazelcast/juctalk/RunPetOwner.java:66 | `trim()`'s forward scan stops at the first character with code above U+0020, or at the end. Every character it skipped has code at most U+0020. |
| `JavaLang.SkipTrailing` | pet-owner/src/main/java/com/hazelcast/juctalk/RunPetOwner.java:66 | `trim()`'s backward scan stops just after the last kept character and never passes the start. Every character it skipped is stripped. |
| `JavaLang.Trim` | pet-owner/src/main/java/com/hazelcast/juctalk/RunPetOwner.java:66 | The result has no strippable character at either end. It is a contiguous slice of the input, and everything around that slice is strippable. |
| `JavaLang.TrimOfPadded` | pet-owner/src/main/java/com/hazelcast/juctalk/RunPetOwner.java:66 | Uniqueness: `trim()` of any padding of strippable characters around a string without strippable ends returns exactly that string. |
| `JavaLang.TrimIdempotent` | pet-owner/src/main/java/com/hazelcast/juctalk/RunPetOwner.java:66 | Trimming twice gives the same result as trimming once. |
| `JavaLang.ToLower` | pet-owner/src/main/java/com/hazelcast/juctalk/RunPetOwner.java:66 | `toLowerCase()` keeps the length and maps every character through the ASCII lower-case mapping. |
| `JavaLang.ToLowerIdempotent` | pet-owner/src/main/java/com/hazelcast/juctalk/RunPetOwner.java:66 | No ASCII capital is left after lower-casing, and lower-casing twice gives the same result as lower-casing once. |
| `JavaLang.LowerCharKeepsTrimmed` | pet-owner/src/main/java/com/hazelcast/juctalk/RunPetOwner.java:66 | Lower-casing a character neither makes it strippable nor stops it being strippable. |
| `JavaLang.TrimOfLower` | pet-owner/src/main/java/com/hazelcast/juctalk/RunPetOwner.java:66 | Trimming and lower-casing commute. |
| `JavaLang.LowerSpells` | pet-owner/src/main/java/com/hazelcast/juctalk/RunPetOwner.java:66-67 | A string lower-cases to a lower-case ASCII word if and only if it spells that word in some mixture of upper and lower case. |
| `JavaLang.NatToDecimal` | pet-owner/src/main/java/com/hazelcast/juctalk/RunPetOwner.java:49 | The decimal form of a natural number is non-empty, all digits, and has no leading zero. |
| `JavaLang.DecimalRoundTrip` | pet-owner/src/main/java/com/hazelcast/juctalk/RunPetOwner.java:49 | The decimal digits of `n` read back as `n`. |
| `JavaLang.IntToString` | pet-owner/src/main/java/com/hazelcast/juctalk/RunPetOwner.java:49 | The decimal form of an `int` in a concatenation is non-empty and starts with a digit or `-`. It starts with `-` if and only if the value is negative. |
| `JavaLang.IntToStringRoundTrip` | pet-owner/src/main/java/com/hazelcast/juctalk/RunPetOwner.java:49 | Parsing the decimal form of any integer gives back that integer, so distinct indexes print differently. |
| `PetOwner.GetPet` | pet-owner/src/main/java/com/hazelcast/juctalk/RunPetOwner.java:61-71 | Any argument count other than one is rejected. Every rejection carries the usage message. Every success had one argument and returns exactly `"cat"` or `"dog"`. |
| `PetOwner.Normalize` | pet-owner/src/main/java/com/hazelcast/juctalk/RunPetOwner.java:66 | `args[0].trim().toLowerCase()` is no longer than the argument and holds no ASCII capital. `NormalizeIdempotent` and `GetPetAccepts` say the rest. |
| `PetOwner.GetPetAccepts` | pet-owner/src/main/java/com/hazelcast/juctalk/RunPetOwner.java:66-70 | `getPet([arg])` returns `pet` if and only if `pet` is `"cat"` or `"dog"` and `arg` is that name, in any case, padded on either side by characters with code at most U+0020. |
| `PetOwner.AcceptedIsSpelled` | pet-owner/src/main/java/com/hazelcast/juctalk/RunPetOwner.java:66-70 | The "only if" half of `GetPetAccepts`: an accepted argument is a padded, case-insensitive spelling of the returned pet. |
| `PetOwner.SpelledIsAccepted` | pet-owner/src/main/java/com/hazelcast/juctalk/RunPetOwner.java:66-70 | The "if" half of `GetPetAccepts`: every padded, case-insensitive spelling of a pet is accepted as that pet. |
| `PetOwner.GetPetRejects` | pet-owner/src/main/java/com/hazelcast/juctalk/RunPetOwner.java:67-69 | A single argument is rejected if and only if it spells neither `cat` nor `dog`. |
| `PetOwner.GetPetExampleDog` | pet-owner/src/main/java/com/hazelcast/juctalk/RunPetOwner.java:66-70 | `getPet(["  DoG "])` returns `"dog"`. |
| `PetOwner.GetPetExampleBird` | pet-owner/src/main/java/com/hazelcast/juctalk/RunPetOwner.java:67-69 | `getPet(["bird"])` throws `IllegalArgumentException` with the usage message. |
| `PetOwner.NormalizeIdempotent` | pet-owner/src/main/java/com/hazelcast/juctalk/RunPetOwner.java:66 | Trimming and lower-casing an already trimmed and lower-cased string changes nothing. |
| `PetOwner.GetPetIdempotent` | pet-owner/src/main/java/com/hazelcast/juctalk/RunPetOwner.java:66-70 | For every accepted argument list, `getPet` on its own result returns that same result. |
| `PetOwner.NextVersion` | pet-owner/src/main/java/com/hazelcast/juctalk/RunPetOwner.java:47 | The next id is 1 with no current photo. Otherwise it is the current id plus one, strictly greater, except at `Integer.MAX_VALUE`, where it wraps to `Integer.MIN_VALUE`. |
| `PetOwner.PetIndex` | pet-owner/src/main/java/com/hazelcast/juctalk/RunPetOwner.java:48 | For every draw in `[0, 15)` the pet index lies in `[1, 15]` and is the draw plus one, with no wrap-around. |
| `PetOwner.PhotoFileName` | pet-owner/src/main/java/com/hazelcast/juctalk/RunPetOwner.java:49 | The file name starts with the pet, ends with `.png`, and its length is the pet's length plus the index's decimal length plus four. |
| `PetOwner.PhotoFileNameRoundTrip` | pet-owner/src/main/java/com/hazelcast/juctalk/RunPetOwner.java:49 | When the pet has no digit or minus sign, splitting the file name gives back exactly the pet and the index. |
| `PetOwner.PhotoFileNameInjective` | pet-owner/src/main/java/com/hazelcast/juctalk/RunPetOwner.java:49 | Two such file names are equal if and only if their pets and indexes are equal. |
| `PetOwner.NewPhoto` | pet-owner/src/main/java/com/hazelcast/juctalk/RunPetOwner.java:46-49 | A new photo has id 1 after no photo, the current id plus one below the maximum, and `Integer.MIN_VALUE` after `Integer.MAX_VALUE`. Its file name splits back into the pet and the draw plus one. |
| `PetOwner.Published` | pet-owner/src/main/java/com/hazelcast/juctalk/RunPetOwner.java:45-50 | Successive loop turns, each storing its new photo as the current one, publish one photo per draw. The first is the photo built from the starting photo. |
| `PetOwner.PublishedStep` | pet-owner/src/main/java/com/hazelcast/juctalk/RunPetOwner.java:46-50 | Each published photo is the one built from the photo published just before it. |
| `PetOwner.PublishedIds` | pet-owner/src/main/java/com/hazelcast/juctalk/RunPetOwner.java:46-50 | Starting from no photo, the publications carry ids 1, 2, …, n for as long as the ids stay within `Integer.MAX_VALUE`. |
| `PetOwner.PublishedFileNames` | pet-owner/src/main/java/com/hazelcast/juctalk/RunPetOwner.java:48-50 | Each published file name holds the pet and the index drawn in that turn. |
| `PetOwner.PublishedIdWraps` | pet-owner/src/main/java/com/hazelcast/juctalk/RunPetOwner.java:47 | The publication after the one with id `Integer.MAX_VALUE` has id `Integer.MIN_VALUE`. |

## Left out

- `RunPetOwner.main` (RunPetOwner.java:29-59) is left out as an imperative loop. It loads the YAML
  client configuration, connects to the cluster, logs, and runs an endless loop over the cluster's
  atomic reference and countdown latch. Those primitives live inside Hazelcast and their code is
  not part of this model. `Published` covers only the values the loop computes. It assumes every
  turn reads back the photo the previous turn stored, that is, that no other process writes the
  reference in between.
- The whole of `RunElectedPetOwner.java` is left out. It adds leader election through a fenced
  lock and calls `Photo.getNextId`, `Photo.getRandomPhotoFileName`, `RunPetOwner.parsePet` and
  `RunPetOwner.toEmoji`. `Photo` and those helpers are not part of this model.
- The latch calls `trySetCount` and `countDown` are left out of the model, as are the lock and
  any cross-process concurrency or session expiry.
- `java.util.Random` is not modelled. The draw of `random.nextInt(15)` is an input in `[0, 15)`.
  The sleeps and their random durations are left out.
- The code of the `Photo` class is not part of this model. The model stands for it with a datatype
  holding an `Int32` id and a file name. Its `toString`, used in the log line, is left out.
- `GetPet` takes a sequence of strings, which cannot hold a null `args` or a null `args[0]`. Either
  would throw `NullPointerException` at RunPetOwner.java:62 or :66. The JVM never passes a null
  to `main`, so this case cannot arise.
- `JavaLang.ToLower`: lower-cases ASCII `A`–`Z` only. Java's locale-sensitive Unicode case mapping
  is not modelled. No character outside ASCII lower-cases into a letter of `cat` or `dog`, so
  `getPet` accepts and rejects the same arguments either way.
- Java strings are sequences of UTF-16 code units. Here they are sequences of Unicode characters,
  which makes no difference to `trim()` (code at most U+0020) or to the ASCII letters compared.
