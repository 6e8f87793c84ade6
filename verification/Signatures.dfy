/** Magic-byte detection and its reconstruction from stored metadata (`app/storage/signatures.py`). */
module Signatures {
  import opened Prelude

  datatype SignatureAssessment = Match | Mismatch | Unknown

  datatype DetectedFileType = DetectedFileType(extension: string, mimeType: string)

  const PE := DetectedFileType(".exe", "application/vnd.microsoft.portable-executable")
  const MSI := DetectedFileType(".msi", "application/x-msi")
  const ZIP := DetectedFileType(".zip", "application/zip")
  const SEVEN_ZIP := DetectedFileType(".7z", "application/x-7z-compressed")
  const OCTET_STREAM := "application/octet-stream"

  const COMPOUND_FILE_SIGNATURE: Bytes := [0xD0, 0xCF, 0x11, 0xE0, 0xA1, 0xB1, 0x1A, 0xE1]
  const SEVEN_ZIP_SIGNATURE: Bytes := [0x37, 0x7A, 0xBC, 0xAF, 0x27, 0x1C]

  /** str.strip().casefold(), whose Unicode tables stay outside the model: all that is used of it
      is that it leaves the five MIME types the detector knows unchanged. */
  type Fold = string -> string

  predicate FixesMimeTypes(fold: Fold) {
    && fold(PE.mimeType) == PE.mimeType
    && fold(MSI.mimeType) == MSI.mimeType
    && fold(ZIP.mimeType) == ZIP.mimeType
    && fold(SEVEN_ZIP.mimeType) == SEVEN_ZIP.mimeType
    && fold(OCTET_STREAM) == OCTET_STREAM
  }

  function LittleEndian(b: Bytes): nat
    requires |b| == 4
  {
    b[0] as int + 0x100 * b[1] as int + 0x1_0000 * b[2] as int + 0x100_0000 * b[3] as int
  }

  predicate LooksLikePE(sample: Bytes) {
    && |sample| >= 64
    && sample[..2] == [0x4D, 0x5A]
    && var offset := LittleEndian(sample[0x3C..0x40]);
       && 64 <= offset
       && offset + 4 <= |sample|
       && sample[offset..offset + 4] == [0x50, 0x45, 0, 0]
  }

  predicate LooksLikeZip(sample: Bytes) {
    [0x50, 0x4B, 3, 4] <= sample || [0x50, 0x4B, 5, 6] <= sample || [0x50, 0x4B, 7, 8] <= sample
  }

  function DetectFileType(sample: Bytes): Option<DetectedFileType> {
    if LooksLikePE(sample) then Some(PE)
    else if COMPOUND_FILE_SIGNATURE <= sample then Some(MSI)
    else if SEVEN_ZIP_SIGNATURE <= sample then Some(SEVEN_ZIP)
    else if LooksLikeZip(sample) then Some(ZIP)
    else None
  }

  /** validate_file_signature: the assessment made at upload. */
  function AssessSample(fold: Fold, extension: string, sample: Bytes): SignatureAssessment {
    match DetectFileType(sample)
    case None => Unknown
    case Some(detected) => if detected.extension == fold(extension) then Match else Mismatch
  }

  /** The MIME type an upload stores for its sample. */
  function StoredMimeType(sample: Bytes): string {
    match DetectFileType(sample)
    case None => OCTET_STREAM
    case Some(detected) => detected.mimeType
  }

  function ExpectedMimeType(extension: string): Option<string> {
    if extension == ".exe" then Some(PE.mimeType)
    else if extension == ".msi" then Some(MSI.mimeType)
    else if extension == ".zip" then Some(ZIP.mimeType)
    else if extension == ".7z" then Some(SEVEN_ZIP.mimeType)
    else None
  }

  /** assess_stored_signature: the assessment rebuilt from the extension and MIME type columns. */
  function AssessStored(fold: Fold, extension: string, mimeType: string): SignatureAssessment {
    var normalized := fold(mimeType);
    if normalized == OCTET_STREAM then Unknown
    else if ExpectedMimeType(fold(extension)) == Some(normalized) then Match
    else Mismatch
  }

  /** Nothing is lost by storing only the MIME type: for every extension and every sample the
      stored columns give the assessment made at upload. */
  lemma StoredAssessmentAgrees(fold: Fold, extension: string, sample: Bytes)
    requires FixesMimeTypes(fold)
    ensures AssessStored(fold, extension, StoredMimeType(sample)) == AssessSample(fold, extension, sample)
  {
    DistinctTypes();
  }

  lemma DistinctTypes()
    ensures OCTET_STREAM !in {PE.mimeType, MSI.mimeType, ZIP.mimeType, SEVEN_ZIP.mimeType}
    ensures PE.mimeType !in {MSI.mimeType, ZIP.mimeType, SEVEN_ZIP.mimeType}
    ensures MSI.mimeType !in {ZIP.mimeType, SEVEN_ZIP.mimeType} && ZIP.mimeType != SEVEN_ZIP.mimeType
    ensures PE.extension !in {MSI.extension, ZIP.extension, SEVEN_ZIP.extension}
    ensures MSI.extension !in {ZIP.extension, SEVEN_ZIP.extension} && ZIP.extension != SEVEN_ZIP.extension
  {
    assert |PE.mimeType| == 45 && |MSI.mimeType| == 17 && |ZIP.mimeType| == 15;
    assert |SEVEN_ZIP.mimeType| == 27 && |OCTET_STREAM| == 24;
    assert PE.extension[1] == 'e' && MSI.extension[1] == 'm' && ZIP.extension[1] == 'z';
  }

  /** The four tests exclude one another, so the order in which they are tried does not matter. */
  lemma DetectionOrderIrrelevant(sample: Bytes)
    ensures DetectFileType(sample) == Some(PE) <==> LooksLikePE(sample)
    ensures DetectFileType(sample) == Some(MSI) <==> COMPOUND_FILE_SIGNATURE <= sample
    ensures DetectFileType(sample) == Some(SEVEN_ZIP) <==> SEVEN_ZIP_SIGNATURE <= sample
    ensures DetectFileType(sample) == Some(ZIP) <==> LooksLikeZip(sample)
  {
    DistinctTypes();
    assert LooksLikePE(sample) ==> sample[0] == sample[..2][0] == 0x4D;
    assert COMPOUND_FILE_SIGNATURE <= sample ==> sample[0] == COMPOUND_FILE_SIGNATURE[0];
    assert SEVEN_ZIP_SIGNATURE <= sample ==> sample[0] == SEVEN_ZIP_SIGNATURE[0];
    assert LooksLikeZip(sample) ==> sample[0] == 0x50;
  }

  /** A ZIP archive starts with "PK" and one of three pairs of bytes: a member, the end of an empty
      archive, or a spanning marker. */
  lemma ZipExactlyWhen(sample: Bytes)
    ensures DetectFileType(sample) == Some(ZIP)
            <==> |sample| >= 4 && sample[0] == 0x50 && sample[1] == 0x4B && (sample[2], sample[3]) in {(3, 4), (5, 6), (7, 8)}
  {
    DetectionOrderIrrelevant(sample);
    if |sample| >= 4 {
      assert sample[..4] == [sample[0], sample[1], sample[2], sample[3]];
    }
  }

  // ---- Where a PE header points ----

  /** The `width` lowest bytes of a number, least significant first. */
  function Encoded(n: nat, width: nat): (b: Bytes)
    ensures |b| == width
  {
    if width == 0 then [] else [(n % 0x100) as byte] + Encoded(n / 0x100, width - 1)
  }

  lemma EncodedFour(n: nat)
    ensures Encoded(n, 4) == [(n % 0x100) as byte, (n / 0x100 % 0x100) as byte, (n / 0x1_0000 % 0x100) as byte, (n / 0x100_0000 % 0x100) as byte]
  {
    assert Encoded(n / 0x100_0000, 1) == [(n / 0x100_0000 % 0x100) as byte] + Encoded(n / 0x1_0000_0000, 0);
    assert Encoded(n / 0x1_0000, 2) == [(n / 0x1_0000 % 0x100) as byte] + Encoded(n / 0x1_0000 / 0x100, 1);
    assert Encoded(n / 0x100, 3) == [(n / 0x100 % 0x100) as byte] + Encoded(n / 0x100 / 0x100, 2);
  }

  /** The four bytes of an offset are read back as that offset, and are the only ones that are. */
  lemma LittleEndianInverts(n: nat, b: Bytes)
    requires n < 0x1_0000_0000 && |b| == 4
    ensures LittleEndian(b) == n <==> b == Encoded(n, 4)
  {
    EncodedFour(n);
    var low, top := b[0] as int, b[2] as int + 0x100 * b[3] as int;
    var rest := b[1] as int + 0x100 * top;
    LastDigit(n, low, rest);
    LastDigit(n / 0x100, b[1] as int, top);
    LastDigit(n / 0x1_0000, b[2] as int, b[3] as int);
    assert LittleEndian(b) == low + 0x100 * rest;
  }

  lemma LastDigit(n: nat, digit: nat, rest: nat)
    requires digit < 0x100
    ensures n == digit + 0x100 * rest <==> n % 0x100 == digit && n / 0x100 == rest
  {
  }

  /** An executable: two bytes, 58 of any kind, the offset of the second signature, the bytes up to
      there, and that signature. */
  ghost predicate IsExecutable(sample: Bytes, header: Bytes, gap: Bytes, rest: Bytes) {
    && |header| == 58 && 64 + |gap| < 0x1_0000_0000
    && sample == [0x4D, 0x5A] + header + Encoded(64 + |gap|, 4) + gap + [0x50, 0x45, 0, 0] + rest
  }

  lemma ExecutablesAreDetected(sample: Bytes, header: Bytes, gap: Bytes, rest: Bytes)
    requires IsExecutable(sample, header, gap, rest)
    ensures LooksLikePE(sample)
  {
    var offset := 64 + |gap|;
    var front := [0x4D, 0x5A] + header;
    assert sample == front + Encoded(offset, 4) + gap + [0x50, 0x45, 0, 0] + rest;
    assert sample[0x3C..0x40] == Encoded(offset, 4);
    LittleEndianInverts(offset, sample[0x3C..0x40]);
    assert sample[offset..offset + 4] == [0x50, 0x45, 0, 0];
    assert sample[..2] == [0x4D, 0x5A];
  }

  /** Detected are exactly the executables. */
  lemma DetectedExactlyWhen(sample: Bytes)
    ensures LooksLikePE(sample) <==> exists header, gap, rest :: IsExecutable(sample, header, gap, rest)
  {
    if LooksLikePE(sample) {
      var offset := LittleEndian(sample[0x3C..0x40]);
      LittleEndianInverts(offset, sample[0x3C..0x40]);
      var header, gap, rest := sample[2..0x3C], sample[64..offset], sample[offset + 4..];
      assert sample == sample[..2] + header + sample[0x3C..0x40] + gap + sample[offset..offset + 4] + rest;
      assert IsExecutable(sample, header, gap, rest);
    }
    forall header, gap, rest | IsExecutable(sample, header, gap, rest)
      ensures LooksLikePE(sample)
    {
      ExecutablesAreDetected(sample, header, gap, rest);
    }
  }
}
