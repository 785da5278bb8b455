/** `PDFPlugin.generate_dicom_from_pdf`: the PDF bytes are embedded unmodified
    in an Encapsulated PDF Storage dataset (SOP Class
    1.2.840.10008.5.1.4.1.1.104.1, the IOD of section A.45 of DICOM PS3.3),
    padded with one zero byte when their length is odd, because section 7.1.1
    of DICOM PS3.5 requires every value to have an even length. The dataset's
    other attributes are fixed literals and the reading of the clock. */
module Encapsulation {
  import opened Base
  import opened Text

  const ENCAPSULATED_PDF_STORAGE: string := "1.2.840.10008.5.1.4.1.1.104.1"
  const MEDIA_STORAGE_SOP_INSTANCE_UID: string := "2.16.840.1.114430.287196081618142314176776725491661159509.60.1"
  const IMPLEMENTATION_CLASS_UID: string := "1.3.46.670589.50.1.8.0"
  const EXPLICIT_VR_LITTLE_ENDIAN: string := "1.2.840.10008.1.2.1"
  const PREAMBLE_LENGTH: nat := 128
  const MAX_CODE_STRING_LENGTH: nat := 16

  /** Lines 259-263: an odd-length value gets one trailing zero byte. The
      result has even length, starts with the input unchanged, and is longer
      by one zero byte exactly when the input length is odd. */
  function PadEven(data: seq<Byte>): (padded: seq<Byte>)
    ensures |padded| - |data| == |data| % 2
    ensures |padded| % 2 == 0
    ensures padded[..|data|] == data
    ensures forall i :: |data| <= i < |padded| ==> padded[i] == 0
  {
    if |data| % 2 != 0 then data + [0] else data
  }

  /** Padding a value that is already even changes nothing. */
  lemma PadEvenIdempotent(data: seq<Byte>)
    ensures PadEven(PadEven(data)) == PadEven(data)
  {
  }

  /** PadEven is the shortest even-length extension of the input by zero
      bytes. */
  lemma PadEvenShortest(data: seq<Byte>, other: seq<Byte>)
    requires |other| % 2 == 0 && |other| >= |data| && other[..|data|] == data
    requires forall i :: |data| <= i < |other| ==> other[i] == 0
    ensures |PadEven(data)| <= |other|
    ensures PadEven(data) == other[..|PadEven(data)|]
  {
    var padded := PadEven(data);
    if |data| % 2 != 0 {
      assert padded == other[..|data| + 1] by {
        assert padded[..|data|] == other[..|data| + 1][..|data|];
      }
    } else {
      assert other[..|padded|] == other[..|data|];
    }
  }

  /** A reading of the clock, `datetime.datetime.now()`. */
  datatype DateTime = DateTime(year: nat, month: nat, day: nat, hour: nat, minute: nat, second: nat, microsecond: nat)

  /** A four-digit-year date and a time of day. */
  predicate ValidDateTime(dt: DateTime) {
    1000 <= dt.year <= 9999 && 1 <= dt.month <= 12 && 1 <= dt.day <= 31 &&
    dt.hour < 24 && dt.minute < 60 && dt.second < 60 && dt.microsecond < 1000000
  }

  function Pow10(n: nat): nat {
    if n == 0 then 1 else 10 * Pow10(n - 1)
  }

  /** `n` in exactly `width` decimal digits, with leading zeros (the
      strftime conversions %m, %d, %H, %M, %S, %f and, for four-digit years,
      %Y). The digits read back as `n`. */
  function ZeroPad(n: nat, width: nat): (s: string)
    requires n < Pow10(width)
    ensures |s| == width && AllDigits(s) && DigitsValue(s) == n
  {
    if width == 0 then ""
    else
      var s := ZeroPad(n / 10, width - 1) + [Digit(n % 10)];
      assert s[..|s| - 1] == ZeroPad(n / 10, width - 1);
      s
  }

  /** `dt.strftime('%Y%m%d')`: eight digits that read back as year, month
      and day. */
  function FormatDate(dt: DateTime): (s: string)
    requires ValidDateTime(dt)
    ensures |s| == 8 && AllDigits(s)
    ensures DigitsValue(s[..4]) == dt.year && DigitsValue(s[4..6]) == dt.month && DigitsValue(s[6..]) == dt.day
  {
    var s := ZeroPad(dt.year, 4) + ZeroPad(dt.month, 2) + ZeroPad(dt.day, 2);
    assert s[..4] == ZeroPad(dt.year, 4) && s[4..6] == ZeroPad(dt.month, 2) && s[6..] == ZeroPad(dt.day, 2);
    s
  }

  /** `dt.strftime('%H%M%S.%f')`: six digits, a dot and six digits that read
      back as hour, minute, second and microsecond. */
  function FormatTime(dt: DateTime): (s: string)
    requires ValidDateTime(dt)
    ensures |s| == 13 && s[6] == '.' && AllDigits(s[..6]) && AllDigits(s[7..])
    ensures DigitsValue(s[..2]) == dt.hour && DigitsValue(s[2..4]) == dt.minute &&
      DigitsValue(s[4..6]) == dt.second && DigitsValue(s[7..]) == dt.microsecond
  {
    var s := ZeroPad(dt.hour, 2) + ZeroPad(dt.minute, 2) + ZeroPad(dt.second, 2) + "." + ZeroPad(dt.microsecond, 6);
    assert s[..2] == ZeroPad(dt.hour, 2) && s[2..4] == ZeroPad(dt.minute, 2) && s[4..6] == ZeroPad(dt.second, 2);
    assert s[7..] == ZeroPad(dt.microsecond, 6);
    assert s[..6] == ZeroPad(dt.hour, 2) + ZeroPad(dt.minute, 2) + ZeroPad(dt.second, 2);
    s
  }

  /** The file meta information group. */
  datatype FileMeta = FileMeta(
    mediaStorageSopClassUid: string,
    mediaStorageSopInstanceUid: string,
    implementationClassUid: string,
    transferSyntaxUid: string)

  /** The attributes the plugin sets on the dataset. The items of the
      concept name code sequence are not modelled: the plugin leaves it empty. */
  datatype EncapsulatedPdf = EncapsulatedPdf(
    fileMeta: FileMeta,
    preamble: seq<Byte>,
    isLittleEndian: bool,
    isImplicitVr: bool,
    studyDate: string,
    studyTime: string,
    contentDate: string,
    contentTime: string,
    acquisitionDateTime: string,
    manufacturer: string,
    referringPhysicianName: string,
    sopClassUid: string,
    encapsulatedDocument: seq<Byte>,
    mimeTypeOfEncapsulatedDocument: string,
    modality: string,
    conversionType: string,
    specificCharacterSet: string,
    burnedInAnnotation: string,
    recognizableVisualFeatures: string,
    documentTitle: string,
    verificationFlag: string,
    instanceNumber: int,
    conceptNameCodeSequence: seq<string>)

  /** `b"\0" * n`. */
  function Zeros(n: nat): (z: seq<Byte>)
    ensures |z| == n && forall i :: 0 <= i < n ==> z[i] == 0
  {
    seq(n, _ => 0)
  }

  /** Builds the dataset from the file's bytes and one reading of the clock.
      The embedded document is the input padded to even length; the SOP class
      of the dataset and of its file meta are Encapsulated PDF Storage; study
      and content carry the same date and time; the 128-byte preamble is all
      zeros; and the transfer syntax matches the little-endian explicit-VR
      encoding flags. */
  function GenerateDicomFromPdf(data: seq<Byte>, now: DateTime): (ds: EncapsulatedPdf)
    requires ValidDateTime(now)
    ensures |ds.encapsulatedDocument| == |data| + |data| % 2
    ensures |ds.encapsulatedDocument| % 2 == 0
    ensures ds.encapsulatedDocument[..|data|] == data
    ensures ds.encapsulatedDocument == PadEven(data)
    ensures ds.sopClassUid == ds.fileMeta.mediaStorageSopClassUid == ENCAPSULATED_PDF_STORAGE
    ensures ds.studyDate == ds.contentDate == FormatDate(now) && ds.studyTime == ds.contentTime == FormatTime(now)
    ensures |ds.preamble| == PREAMBLE_LENGTH && forall i :: 0 <= i < |ds.preamble| ==> ds.preamble[i] == 0
    ensures ds.fileMeta.transferSyntaxUid == EXPLICIT_VR_LITTLE_ENDIAN && ds.isLittleEndian && !ds.isImplicitVr
    ensures ds.mimeTypeOfEncapsulatedDocument == "application/pdf" && ds.modality == "DOC"
  {
    var date, time := FormatDate(now), FormatTime(now);
    var meta := FileMeta(ENCAPSULATED_PDF_STORAGE, MEDIA_STORAGE_SOP_INSTANCE_UID,
                         IMPLEMENTATION_CLASS_UID, EXPLICIT_VR_LITTLE_ENDIAN);
    EncapsulatedPdf(
      fileMeta := meta,
      preamble := Zeros(PREAMBLE_LENGTH),
      isLittleEndian := true,
      isImplicitVr := false,
      studyDate := date,
      studyTime := time,
      contentDate := date,
      contentTime := time,
      acquisitionDateTime := "19700101",
      manufacturer := "imagedata",
      referringPhysicianName := "",
      sopClassUid := ENCAPSULATED_PDF_STORAGE,
      encapsulatedDocument := PadEven(data),
      mimeTypeOfEncapsulatedDocument := "application/pdf",
      modality := "DOC",
      conversionType := "WSD",
      specificCharacterSet := "ISO_IR 100",
      burnedInAnnotation := "YES",
      recognizableVisualFeatures := "YES",
      documentTitle := "",
      verificationFlag := "UNVERIFIED",
      instanceNumber := 1,
      conceptNameCodeSequence := [])
  }

  /** A code string value (value representation CS of section 6.2 of DICOM
      PS3.5): at most 16 upper-case letters, digits, spaces or underscores. */
  predicate ValidCodeString(s: string) {
    |s| <= MAX_CODE_STRING_LENGTH &&
    forall i :: 0 <= i < |s| ==> 'A' <= s[i] <= 'Z' || IsDigit(s[i]) || s[i] == ' ' || s[i] == '_'
  }

  /** Every code string the plugin writes is a well-formed CS value. */
  lemma CodeStringsConform(data: seq<Byte>, now: DateTime)
    requires ValidDateTime(now)
    ensures var ds := GenerateDicomFromPdf(data, now);
      && ValidCodeString(ds.modality) && ValidCodeString(ds.conversionType)
      && ValidCodeString(ds.specificCharacterSet) && ValidCodeString(ds.burnedInAnnotation)
      && ValidCodeString(ds.recognizableVisualFeatures) && ValidCodeString(ds.verificationFlag)
  {
  }
}
