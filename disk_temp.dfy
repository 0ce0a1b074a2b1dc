/** The disk temperature probe: read the model name, check it against the
    allow-list, and only then issue the vendor command. */
module DiskTemp {
  import opened Wrappers
  import opened ModelPattern
  import opened ModelName
  import opened HitachiTemp

  /** What the probe can observe of one block device: the contents of its
      sysfs model file (None when the file cannot be opened) and the byte the
      vendor command returns (None when open or ioctl fails). Each character
      of the model text stands for one byte of the file, so lengths are byte
      counts. */
  datatype Drive = Drive(modelFile: Option<string>, response: Option<byte>)

  /** The model is on the allow-list. */
  predicate IsHitachi(model: string) {
    MatchesAny(model, HitachiModels)
  }

  /** The temperature of a drive, or Unavailable. */
  function DiskTemperature(d: Drive): (t: int)
    ensures t == Unavailable || MinTemp <= t <= MaxTemp
  {
    match d.modelFile
    case None => Unavailable
    case Some(raw) => if IsHitachi(NormalisedModel(raw)) then ReadHitachiTemp(d.response) else Unavailable
  }

  /** A drive has a temperature only when its model file exists and its
      normalised model is on the allow-list; then it is the decoded response. */
  lemma DiskTemperatureCases(d: Drive)
    ensures d.modelFile.None? ==> DiskTemperature(d) == Unavailable
    ensures d.modelFile.Some? && !IsHitachi(NormalisedModel(d.modelFile.value)) ==>
      DiskTemperature(d) == Unavailable
    ensures d.modelFile.Some? && IsHitachi(NormalisedModel(d.modelFile.value)) ==>
      DiskTemperature(d) == ReadHitachiTemp(d.response)
    ensures DiskTemperature(d) != Unavailable ==>
      d.modelFile.Some? && IsHitachi(NormalisedModel(d.modelFile.value))
  {
  }

  /** The probe as the source runs it: unopenable model file, normalisation, the
      first-match search over the allow-list, then the drive read. */
  method ReadDiskTemp(d: Drive) returns (t: int)
    ensures t == DiskTemperature(d)
    ensures d.modelFile.None? ==> t == Unavailable
    ensures d.modelFile.Some? ==>
      t == (if IsHitachi(NormalisedModel(d.modelFile.value)) then ReadHitachiTemp(d.response) else Unavailable)
  {
    if d.modelFile.None? {
      return Unavailable;
    }
    var model := NormaliseModel(d.modelFile.value);
    var isHitachi := MatchesAnyPattern(model, HitachiModels);
    if isHitachi {
      return ReadHitachiTemp(d.response);
    }
    return Unavailable;
  }

  /** The vendor response is looked at only for an allow-listed model: two
      drives that differ only in their response agree unless the model matches. */
  lemma ResponseIgnoredUnlessHitachi(raw: string, r1: Option<byte>, r2: Option<byte>)
    requires !IsHitachi(NormalisedModel(raw))
    ensures DiskTemperature(Drive(Some(raw), r1)) == DiskTemperature(Drive(Some(raw), r2)) == Unavailable
  {
  }

  /** A drive whose model file holds a vendor prefix, a space, an allow-listed
      model and a newline reads as its decoded response byte. */
  lemma ProbeLastWord(prefix: string, word: string, b: byte)
    requires '\n' !in prefix && '\n' !in word && ' ' !in word
    requires IsHitachi(word)
    ensures DiskTemperature(Drive(Some(prefix + " " + word + "\n"), Some(b))) == DecodeTemperature(b)
  {
    NormalisedLastWord(prefix, word);
  }

  /** A model text padded with a trailing space normalises to the empty word,
      which no pattern matches, so the drive is never read. */
  lemma TrailingSpaceNeverRead(raw: string, response: Option<byte>)
    requires |raw| > 0 && raw[|raw| - 1] == ' '
    ensures DiskTemperature(Drive(Some(raw), response)) == Unavailable
  {
    NormalisedTrailingSpace(raw);
    assert !Matches([], HitachiModels[0]);
  }
}
