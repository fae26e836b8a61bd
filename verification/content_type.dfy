/** The media-type table of the web server and its lookup: two parallel
    constant tables of `numberOfTypes` slots, extensions and media types,
    searched front to back for the first extension equal to the one asked
    for.

    The extension table is modelled exactly as its initialiser is written.
    Two commas are missing in it, so the compiler joins `"jpg" "jpeg"` into
    one literal and `"png" "gif"` into another; only eight initialisers are
    left for ten slots, and the last two slots hold default-constructed
    (empty) strings. */
module ContentType {
  import Path

  /** The source's `unsigned char`. */
  newtype uint8 = x: int | 0 <= x < 256

  /** `numberOfTypes`: the number of slots of both tables. */
  const NumberOfTypes: uint8 := 10

  /** An Arduino `String` built by its default constructor: empty. */
  const DefaultString: string := ""

  /** `extensions`, slot by slot as the initialiser produces them. */
  const Extensions: seq<string> := [
    "txt",
    "html",
    "css",
    "js",
    "ico",
    "bmp",
    "jpg" + "jpeg",
    "png" + "gif",
    DefaultString,
    DefaultString
  ]

  /** `types`: one media type per slot; slot `i` belongs to extension slot `i`. */
  const Types: seq<string> := [
    "text/plain",
    "text/html",
    "text/css",
    "text/javascript",
    "image/x-icon",
    "image/bmp",
    "image/jpeg",
    "image/jpeg",
    "image/png",
    "image/gif"
  ]

  /** No slot at or after `from` holds `extension`. */
  predicate NoMatchFrom(extension: string, from: int)
  {
    forall k :: 0 <= from <= k < |Extensions| ==> Extensions[k] != extension
  }

  /** Slot `k` is the first slot at or after `from` whose extension equals
      `extension`. */
  predicate IsFirstMatchFrom(extension: string, from: int, k: int)
  {
    && 0 <= from <= k < |Extensions|
    && Extensions[k] == extension
    && forall j :: from <= j < k ==> Extensions[j] != extension
  }

  /** Slot `i` is the first slot of the whole table whose extension equals
      `extension`. */
  predicate IsFirstMatch(extension: string, i: int)
  {
    IsFirstMatchFrom(extension, 0, i)
  }

  /** The loop of `getTypeFromExtension` from slot `i` on: the media type of
      the first slot at or after `i` whose extension equals `extension`, or
      the empty string when there is none. The index is an `unsigned char`
      that never leaves 0..numberOfTypes, so no slot outside the tables is
      read. */
  function LookupFrom(extension: string, i: uint8): (r: string)
    requires i <= NumberOfTypes
    ensures r == "" <==> NoMatchFrom(extension, i as int)
    ensures r != "" ==> exists k :: IsFirstMatchFrom(extension, i as int, k) && r == Types[k]
    decreases NumberOfTypes - i
  {
    if i == NumberOfTypes then ""
    else if Extensions[i] == extension then
      assert IsFirstMatchFrom(extension, i as int, i as int);
      Types[i]
    else
      LookupFrom(extension, i + 1)
  }

  /** `getTypeFromExtension`: the media type paired with the first slot
      whose extension equals `extension`, or the empty string when no slot
      matches. The result is always the empty string or one of the media
      types. */
  function GetTypeFromExtension(extension: string): (r: string)
    ensures r == "" <==> extension !in Extensions
    ensures forall i :: IsFirstMatch(extension, i) ==> r == Types[i]
    ensures r == "" || r in Types
  {
    LookupFrom(extension, 0)
  }

  /** Both tables have `numberOfTypes` slots, and every media type is a
      non-empty string, so an empty answer can only mean "no match". */
  lemma TablesShape()
    ensures |Extensions| == |Types| == NumberOfTypes as int
    ensures forall i :: 0 <= i < |Types| ==> Types[i] != ""
  {
  }

  /** The joined literals: slots 6 and 7 hold `"jpgjpeg"` and `"pnggif"`,
      and slots 8 and 9 are empty. */
  lemma MergedExtensionSlots()
    ensures Extensions[6] == "jpgjpeg" && Extensions[7] == "pnggif"
    ensures Extensions[8] == "" && Extensions[9] == ""
  {
  }

  /** The four extensions written next to a missing comma are in no slot,
      so looking them up finds nothing. */
  lemma SplitExtensionsNotFound()
    ensures GetTypeFromExtension("jpg") == ""
    ensures GetTypeFromExtension("jpeg") == ""
    ensures GetTypeFromExtension("png") == ""
    ensures GetTypeFromExtension("gif") == ""
  {
    forall e | e in ["jpg", "jpeg", "png", "gif"]
      ensures e !in Extensions
    {
      forall k | 0 <= k < |Extensions|
        ensures Extensions[k] != e
      {
        assert |Extensions[k]| != |e| || Extensions[k][0] != e[0] || Extensions[k][1] != e[1];
      }
    }
  }

  /** The joined strings are found, each with the media type of its slot:
      `"pnggif"` is answered with `image/jpeg`. */
  lemma JoinedExtensionsLookup()
    ensures GetTypeFromExtension("jpgjpeg") == "image/jpeg"
    ensures GetTypeFromExtension("pnggif") == "image/jpeg"
  {
    assert IsFirstMatch("jpgjpeg", 6);
    assert IsFirstMatch("pnggif", 7);
  }

  /** The empty extension matches the first empty slot, 8, and so is
      answered with slot 8's media type. */
  lemma EmptyExtensionIsPng()
    ensures GetTypeFromExtension("") == "image/png"
  {
    assert IsFirstMatch("", 8);
  }

  /** The text extensions, whose literals are intact, map to their media
      types. */
  lemma TextExtensionsLookup()
    ensures GetTypeFromExtension("txt") == "text/plain"
    ensures GetTypeFromExtension("html") == "text/html"
    ensures GetTypeFromExtension("css") == "text/css"
    ensures GetTypeFromExtension("js") == "text/javascript"
  {
    assert IsFirstMatch("txt", 0);
    assert IsFirstMatch("html", 1);
    assert IsFirstMatch("css", 2);
    assert IsFirstMatch("js", 3);
  }

  /** The icon and bitmap extensions, whose literals are intact, map to
      their media types. */
  lemma IconAndBitmapLookup()
    ensures GetTypeFromExtension("ico") == "image/x-icon"
    ensures GetTypeFromExtension("bmp") == "image/bmp"
  {
    assert IsFirstMatch("ico", 4);
    assert IsFirstMatch("bmp", 5);
  }

  /** Looking up the extension of a path with no `.`, or with a trailing
      `.`, asks for the empty extension and so answers `image/png`. */
  lemma ExtensionlessPathIsPng(path: string)
    requires '.' !in path || (|path| > 0 && path[|path| - 1] == '.')
    ensures GetTypeFromExtension(Path.GetFileExtension(path)) == "image/png"
  {
    if '.' in path {
      Path.TrailingDotIsFile(path);
    }
    EmptyExtensionIsPng();
  }
}
