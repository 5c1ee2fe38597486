/**
  * The local logic of the pet owner: validating the pet named on the command
  * line, choosing the id of the next published photo and naming its file.
  * The publish loop itself, which reads and writes the cluster's atomic
  * reference and counts down its latch, is not part of this model.
  */
module PetOwner {
  import opened Wrappers
  import opened JavaLang

  /** The message of every `IllegalArgumentException` that `getPet` throws. */
  const USAGE: string := "You must provide a single argument: cat|dog"

  /** The bound given to `random.nextInt` when a photo's pet index is drawn. */
  const PET_INDEX_BOUND: int := 15

  /** The `IllegalArgumentException` raised on a malformed command line. */
  datatype IllegalArgument = IllegalArgument(message: string)

  /** A published photo: its version number and the name of its image file. */
  datatype Photo = Photo(id: Int32, fileName: string)

  /** The two pets a pet owner can photograph. */
  predicate IsPet(s: string) {
    s == "cat" || s == "dog"
  }

  /** What `getPet` makes of its argument before comparing it: trimmed, then lower-cased. */
  function Normalize(arg: string): (r: string)
    ensures |r| <= |arg|
    ensures forall i :: 0 <= i < |r| ==> !IsAsciiUpper(r[i])
  {
    ToLowerIdempotent(Trim(arg));
    ToLower(Trim(arg))
  }

  // ---------------------------------------------------------------------
  // getPet

  /** `RunPetOwner.getPet`: the single command-line argument, normalised, if it names a pet. */
  function GetPet(args: seq<string>): (r: Result<string, IllegalArgument>)
    ensures |args| != 1 ==> r == Failure(IllegalArgument(USAGE))
    ensures r.Failure? ==> r.error == IllegalArgument(USAGE)
    ensures r.Success? ==> IsPet(r.value) && |args| == 1
  {
    if |args| != 1 then
      Failure(IllegalArgument(USAGE))
    else
      var pet := Normalize(args[0]);
      if !(pet == "cat" || pet == "dog") then Failure(IllegalArgument(USAGE)) else Success(pet)
  }

  /**
    * `arg` names `pet`: the pet's name in any mixture of upper and lower
    * case, padded on either side by characters `trim()` strips.
    */
  ghost predicate SpelledAs(arg: string, pet: string)
    requires IsPet(pet)
  {
    exists lo, hi :: PaddedSpelling(arg, pet, lo, hi)
  }

  /** `arg[lo..hi]` spells `pet` in some case, and everything around it is stripped by `trim()`. */
  predicate PaddedSpelling(arg: string, pet: string, lo: int, hi: int)
    requires IsPet(pet)
  {
    0 <= lo <= hi <= |arg| && AllTrimmed(arg[..lo]) && AllTrimmed(arg[hi..])
    && SpellsIgnoringCase(arg[lo..hi], pet)
  }

  /** `getPet` accepts a single argument exactly when it names a pet, and returns that pet. */
  lemma GetPetAccepts(arg: string, pet: string)
    ensures GetPet([arg]) == Success(pet) <==> IsPet(pet) && SpelledAs(arg, pet)
  {
    if GetPet([arg]) == Success(pet) {
      AcceptedIsSpelled(arg, pet);
    }
    if IsPet(pet) && SpelledAs(arg, pet) {
      SpelledIsAccepted(arg, pet);
    }
  }

  lemma AcceptedIsSpelled(arg: string, pet: string)
    requires GetPet([arg]) == Success(pet)
    ensures IsPet(pet) && SpelledAs(arg, pet)
  {
    var w := Trim(arg);
    assert Normalize(arg) == pet;
    var lo := SkipLeading(arg, 0);
    LowerSpells(w, pet);
    assert PaddedSpelling(arg, pet, lo, lo + |w|);
  }

  lemma SpelledIsAccepted(arg: string, pet: string)
    requires IsPet(pet) && SpelledAs(arg, pet)
    ensures GetPet([arg]) == Success(pet)
  {
    var lo, hi :| PaddedSpelling(arg, pet, lo, hi);
    var w := arg[lo..hi];
    assert SpellsIgnoringCase(w, pet);
    LowerSpells(w, pet);
    assert arg == arg[..lo] + w + arg[hi..];
    SpelledPetHasNoTrimmedEnds(w, pet);
    TrimOfPadded(arg[..lo], w, arg[hi..]);
    assert Normalize(arg) == pet;
  }

  lemma SpelledPetHasNoTrimmedEnds(w: string, pet: string)
    requires IsPet(pet) && SpellsIgnoringCase(w, pet)
    ensures HasNoTrimmedEnds(w)
  {
    assert w[0] == pet[0] || w[0] == UpperChar(pet[0]);
    assert w[2] == pet[2] || w[2] == UpperChar(pet[2]);
  }

  /** A single argument is rejected exactly when it names neither pet. */
  lemma GetPetRejects(arg: string)
    ensures GetPet([arg]).Failure? <==> !SpelledAs(arg, "cat") && !SpelledAs(arg, "dog")
  {
    GetPetAccepts(arg, "cat");
    GetPetAccepts(arg, "dog");
  }

  /** Surrounding blanks and capitals are ignored. */
  lemma GetPetExampleDog()
    ensures GetPet(["  DoG "]) == Success("dog")
  {
    assert PaddedSpelling("  DoG ", "dog", 2, 5);
    SpelledIsAccepted("  DoG ", "dog");
  }

  /** Another animal is refused. */
  lemma GetPetExampleBird()
    ensures GetPet(["bird"]) == Failure(IllegalArgument(USAGE))
  {
    var bird := "bird";
    assert bird == [] + bird + [];
    assert HasNoTrimmedEnds(bird);
    TrimOfPadded([], bird, []);
    var n := Normalize(bird);
    assert |n| == 4;
    assert n != "cat" && n != "dog";
  }

  /** Normalising a normalised argument changes nothing. */
  lemma NormalizeIdempotent(arg: string)
    ensures Normalize(Normalize(arg)) == Normalize(arg)
  {
    TrimOfLower(Trim(arg));
    TrimIdempotent(arg);
    ToLowerIdempotent(Trim(arg));
  }

  /** Feeding `getPet` its own result gives the same result. */
  lemma GetPetIdempotent(args: seq<string>)
    requires GetPet(args).Success?
    ensures GetPet([GetPet(args).value]) == GetPet(args)
  {
    NormalizeIdempotent(args[0]);
  }

  // ---------------------------------------------------------------------
  // The next photo

  /** The id of the next photo: 1 when none is published yet, otherwise the current id plus one in `int` arithmetic. */
  function NextVersion(current: Option<Photo>): (v: Int32)
    ensures current.None? ==> v == 1
    ensures current.Some? && current.value.id as int < INT_MAX ==>
              v as int == current.value.id as int + 1 && v > current.value.id
    ensures current.Some? && current.value.id as int == INT_MAX ==> v as int == INT_MIN
  {
    if current.Some? then AddInt(current.value.id, 1) else 1
  }

  /** `1 + random.nextInt(15)` for the draw `draw` of `random.nextInt(15)`. */
  function PetIndex(draw: Int32): (i: Int32)
    requires 0 <= draw as int < PET_INDEX_BOUND
    ensures 1 <= i as int <= PET_INDEX_BOUND
    ensures i as int - 1 == draw as int
  {
    AddInt(1, draw)
  }

  /** The file name `pet + petIndex + ".png"`. */
  function PhotoFileName(pet: string, petIndex: Int32): (name: string)
    ensures |name| == |pet| + |IntToString(petIndex as int)| + 4
    ensures name[..|pet|] == pet
    ensures name[|name| - 4..] == ".png"
  {
    pet + IntToString(petIndex as int) + ".png"
  }

  /** A character that cannot start the decimal form of an `int`. */
  predicate IsNameChar(c: char) {
    !IsDigit(c) && c != '-'
  }

  predicate AllNameChars(s: string) {
    forall i :: 0 <= i < |s| ==> IsNameChar(s[i])
  }

  /** The length of the longest prefix of `s` made of name characters. */
  function NamePrefixLength(s: string): (k: nat)
    ensures k <= |s|
    ensures forall i :: 0 <= i < k ==> IsNameChar(s[i])
    ensures k < |s| ==> !IsNameChar(s[k])
  {
    if s != [] && IsNameChar(s[0]) then 1 + NamePrefixLength(s[1..]) else 0
  }

  /** Splits a photo file name back into its pet and its pet index. */
  function ParsePhotoFileName(name: string): Option<(string, int)> {
    if |name| >= 4 && name[|name| - 4..] == ".png" then
      var stem := name[..|name| - 4];
      var k := NamePrefixLength(stem);
      match ParseInt(stem[k..])
      case Some(n) => Some((stem[..k], n))
      case None => None
    else None
  }

  lemma {:induction false} NamePrefixLengthOf(pet: string, t: string)
    requires AllNameChars(pet) && t != [] && !IsNameChar(t[0])
    ensures NamePrefixLength(pet + t) == |pet|
    decreases |pet|
  {
    if pet != [] {
      assert (pet + t)[1..] == pet[1..] + t;
      NamePrefixLengthOf(pet[1..], t);
    } else {
      assert pet + t == t;
    }
  }

  /** A file name built from a pet without digits or minus signs names that pet and index alone. */
  lemma PhotoFileNameRoundTrip(pet: string, petIndex: Int32)
    requires AllNameChars(pet)
    ensures ParsePhotoFileName(PhotoFileName(pet, petIndex)) == Some((pet, petIndex as int))
  {
    var digits := IntToString(petIndex as int);
    var name := PhotoFileName(pet, petIndex);
    var stem := name[..|name| - 4];
    assert stem == pet + digits;
    NamePrefixLengthOf(pet, digits);
    assert stem[|pet|..] == digits;
    IntToStringRoundTrip(petIndex as int);
  }

  /** Different pets or different indexes give different file names. */
  lemma PhotoFileNameInjective(pet1: string, i1: Int32, pet2: string, i2: Int32)
    requires AllNameChars(pet1) && AllNameChars(pet2)
    ensures PhotoFileName(pet1, i1) == PhotoFileName(pet2, i2) <==> pet1 == pet2 && i1 == i2
  {
    PhotoFileNameRoundTrip(pet1, i1);
    PhotoFileNameRoundTrip(pet2, i2);
  }

  /** The photo built in one turn of the publish loop, for the draw `draw` of `random.nextInt(15)`. */
  function NewPhoto(current: Option<Photo>, pet: string, draw: Int32): (p: Photo)
    requires IsPet(pet) && 0 <= draw as int < PET_INDEX_BOUND
    ensures current.None? ==> p.id == 1
    ensures current.Some? && current.value.id as int < INT_MAX ==> p.id as int == current.value.id as int + 1
    ensures current.Some? && current.value.id as int == INT_MAX ==> p.id as int == INT_MIN
    ensures ParsePhotoFileName(p.fileName) == Some((pet, draw as int + 1))
  {
    var i := PetIndex(draw);
    PhotoFileNameRoundTrip(pet, i);
    Photo(NextVersion(current), PhotoFileName(pet, i))
  }

  predicate ValidDraws(draws: seq<Int32>) {
    forall k :: 0 <= k < |draws| ==> 0 <= draws[k] as int < PET_INDEX_BOUND
  }

  /**
    * The photos published by successive turns of the publish loop, one per
    * draw, each turn storing its new photo as the current one for the next.
    */
  function Published(current: Option<Photo>, pet: string, draws: seq<Int32>): (photos: seq<Photo>)
    requires IsPet(pet) && ValidDraws(draws)
    ensures |photos| == |draws|
    ensures |draws| > 0 ==> photos[0] == NewPhoto(current, pet, draws[0])
    decreases |draws|
  {
    if draws == [] then []
    else
      var p := NewPhoto(current, pet, draws[0]);
      [p] + Published(Some(p), pet, draws[1..])
  }

  /** Each published photo is the one built from the photo published just before it. */
  lemma {:induction false} PublishedStep(current: Option<Photo>, pet: string, draws: seq<Int32>, i: nat)
    requires IsPet(pet) && ValidDraws(draws) && i + 1 < |draws|
    ensures Published(current, pet, draws)[i + 1]
            == NewPhoto(Some(Published(current, pet, draws)[i]), pet, draws[i + 1])
    decreases i
  {
    if i > 0 {
      var p := NewPhoto(current, pet, draws[0]);
      PublishedStep(Some(p), pet, draws[1..], i - 1);
    }
  }

  /** Starting from no photo, the k-th publication has id k as long as the ids stay below `Integer.MAX_VALUE`. */
  lemma {:induction false} PublishedIds(pet: string, draws: seq<Int32>, i: nat)
    requires IsPet(pet) && ValidDraws(draws) && i < |draws| && i + 1 <= INT_MAX
    ensures Published(None, pet, draws)[i].id as int == i + 1
  {
    if i > 0 {
      PublishedIds(pet, draws, i - 1);
      PublishedStep(None, pet, draws, i - 1);
    }
  }

  /** Every published file name holds the pet and the index drawn for that turn. */
  lemma {:induction false} PublishedFileNames(current: Option<Photo>, pet: string, draws: seq<Int32>, i: nat)
    requires IsPet(pet) && ValidDraws(draws) && i < |draws|
    ensures ParsePhotoFileName(Published(current, pet, draws)[i].fileName) == Some((pet, draws[i] as int + 1))
  {
    var photos := Published(current, pet, draws);
    var prev := if i == 0 then current else Some(photos[i - 1]);
    if i > 0 {
      PublishedStep(current, pet, draws, i - 1);
    }
    assert photos[i] == NewPhoto(prev, pet, draws[i]);
  }

  /** The publication after the one with id `Integer.MAX_VALUE` wraps around to `Integer.MIN_VALUE`. */
  lemma PublishedIdWraps(pet: string, draws: seq<Int32>)
    requires IsPet(pet) && ValidDraws(draws) && |draws| > INT_MAX
    ensures Published(None, pet, draws)[INT_MAX].id as int == INT_MIN
  {
    PublishedIds(pet, draws, INT_MAX - 1);
    PublishedStep(None, pet, draws, INT_MAX - 1);
  }
}
