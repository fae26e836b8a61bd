# Arduino web server: path helpers and media-type lookup

A Dafny model of two small pure components of an Arduino web server:

- the `Path` helpers, which join two paths (`combinePaths`), give a folder
  path a trailing `/` (`normalisePath`), tell whether a path mentions a file
  (`hasFile`), and take the file name (`getFileName`) and the extension
  (`getFileExtension`) out of a path;
- the `ContentType` table and its lookup `getTypeFromExtension`, a
  first-match linear search over two parallel ten-slot tables of extensions
  and media types.

An Arduino `String` is modelled as an immutable `seq<char>`. The few
`String` operations the helpers call (`endsWith`, `indexOf`, `lastIndexOf`,
`substring`) are written out in module `ArduinoString`
(`arduino_string.dfy`), each computing the same result as the library, with a
contract that says what that result is. Module `Path` (`path.dfy`) models
`Path.cpp`, and module `ContentType` (`content_type.dfy`) models
`ContentType.h` and `ContentType.cpp`.

The model follows the code as written:

- `combinePaths` does no normalisation. It inserts one `/` only when `path1`
  does not already end with one.
- Any `.` marks a file, a trailing one included.
- `getFileName` cuts at the last `\` and ignores `/`. Its call to
  `normalisePath` is made and its result dropped.
- `getFileExtension` returns everything after the last `.`, even when that
  text contains `/`.
- The extension table keeps its two missing commas. Slots 6 and 7 hold
  `"jpgjpeg"` and `"pnggif"`. Slots 8 and 9 are empty strings.

As a consequence, `"jpg"`, `"jpeg"`, `"png"` and `"gif"` are not found.
The empty extension, which is what a path without a `.` yields, is answered
with `image/png`.

The comments in `Path.cpp` promise more than the code does. The doc comment
of `combinePaths` (`Path.cpp:7`) speaks of "ensuring a valid path format",
and its TODO notes (`Path.cpp:10-11`) ask for `\` to be replaced with `/`
and for both paths to be normalised; neither happens. The TODO at
`Path.cpp:36` asks `hasFile` to check for content after the `.`; it does not,
so `Path.TrailingDotIsFile` shows that `"a."` mentions a file. The TODO at
`Path.cpp:46` asks `getFileName` to check that a file exists; it does not.
It cuts only at the last `\`, so `Path.GetFileName` returns a path without
`\` whole: `"dir/sub/file.js"` comes back unchanged. The model follows the code.

## Model

| member | source | states |
|---|---|---|
| `ArduinoString.EndsWith` | Path.cpp:12 | true exactly when `suffix` is no longer than `s` and equals its last characters, position by position; so a non-empty suffix never matches the empty string |
| `ArduinoString.IndexOf` | Path.cpp:37 | -1 exactly when the character does not occur; otherwise a position holding it with no earlier occurrence |
| `ArduinoString.LastIndexOf` | Path.cpp:47 | -1 exactly when the character does not occur; otherwise a position holding it with no later occurrence |
| `ArduinoString.Substring` | Path.cpp:47 | empty for a start at or past the end; otherwise as long as the rest of `s`, and character `k` of the result is character `from + k` of `s` |
| `Path.CombinePaths` | Path.cpp:9-16 | `path1` is a prefix and `path2` a suffix of the result, which is one character longer than both together exactly when `path1` does not end in `/`, that character being a `/` |
| `Path.HasFile` | Path.cpp:35-38 | true exactly when `.` occurs anywhere in the path |
| `Path.NormalisePath` | Path.cpp:21-29 | the input is a prefix of the result, which is at most one longer; `.` occurs in it exactly when in the input; it contains `.` or ends in `/`; it equals the input exactly when the input contains `.` or ends in `/` |
| `Path.GetFileName` | Path.cpp:44-48 | a suffix of the path with no `\`, preceded by a `\` when the path has one, and the whole path when it has none; it depends on the path alone, the normalised copy being dropped |
| `Path.GetFileExtension` | Path.cpp:54-59 | empty when the path has no `.`; otherwise a suffix with no `.` preceded by a `.`, so the text after the last `.` |
| `Path.CombineKeepsDoubleSlash` | Path.cpp:10-15 | a `path1` ending in `/` joined to a `path2` starting with `/` leaves `//` in the result |
| `Path.CombineEmptyFirst` | Path.cpp:12-15 | joining onto an empty `path1` gives `"/" + path2` |
| `Path.CombineIsNormaliseThenAppend` | Path.cpp:9-28 | for a `path1` without `.`, joining equals normalising `path1` then appending `path2`; for one with `.` not ending in `/`, joining still inserts a `/` that normalising does not |
| `Path.NormaliseIdempotent` | Path.cpp:21-29 | normalising twice equals normalising once, on every input |
| `Path.NormaliseFixedPoints` | Path.cpp:21-29 | a path is left unchanged by normalising exactly when it mentions a file or ends in `/`, and every result is such a path |
| `Path.NormalisePreservesHasFile` | Path.cpp:22-28 | normalising never changes whether a path mentions a file |
| `Path.TrailingDotIsFile` | Path.cpp:35-58 | a path ending in `.` mentions a file and has the empty extension |
| `Path.ExtensionSplit` | Path.cpp:55-58 | a path with a `.` is some prefix, then `.`, then its extension |
| `Path.ExtensionOfExtension` | Path.cpp:54-59 | the extension of an extension is empty, since an extension holds no `.` |
| `Path.FileNameIdempotent` | Path.cpp:44-48 | taking the file name of a file name changes nothing |
| `Path.FileNameAfterLastBackslash` | Path.cpp:47 | for any `dir` and any `name` without `\`, the file name of `dir + "\" + name` is `name`, whatever `/` separators `dir` holds |
| `Path.ExtensionAfterLastDot` | Path.cpp:55-58 | for any `stem` and any `ext` without `.`, the extension of `stem + "." + ext` is `ext`, even when `ext` holds a `/` (so `"a.b/c"` gives `"b/c"`) |
| `Path.FileNameEndsWithExtension` | Path.cpp:44-58 | when the extension holds no `\`, the file name is longer than the extension and ends with `.` followed by it |
| `Path.ExtensionAcrossBackslash` | Path.cpp:44-58 | the condition of `FileNameEndsWithExtension` is needed: for `"a.b\c"` the file name is `"c"` and the extension `"b\c"`, so the file name does not end with `.` and the extension |
| `ContentType.LookupFrom` | ContentType.cpp:9-14 | from slot `i` on: empty exactly when no slot at or after `i` matches; otherwise the media type of the first matching slot at or after `i`; the index stays within `0..numberOfTypes` |
| `ContentType.GetTypeFromExtension` | ContentType.cpp:8-15 | empty exactly when no slot matches; the media type of the first matching slot; always empty or one of the media types |
| `ContentType.TablesShape` | ContentType.h:5-30 | both tables have `numberOfTypes` = 10 slots, and every media type is non-empty |
| `ContentType.MergedExtensionSlots` | ContentType.h:6-17 | extension slots 6 and 7 are `"jpgjpeg"` and `"pnggif"`; slots 8 and 9 are empty |
| `ContentType.SplitExtensionsNotFound` | ContentType.h:13-16 | `"jpg"`, `"jpeg"`, `"png"` and `"gif"` are not found |
| `ContentType.JoinedExtensionsLookup` | ContentType.h:13-27 | `"jpgjpeg"` and `"pnggif"` are both answered with `image/jpeg` |
| `ContentType.EmptyExtensionIsPng` | ContentType.h:6-28 | the empty extension is answered with slot 8's `image/png` |
| `ContentType.TextExtensionsLookup` | ContentType.h:7-23 | `txt`, `html`, `css` and `js` are answered with `text/plain`, `text/html`, `text/css` and `text/javascript` |
| `ContentType.IconAndBitmapLookup` | ContentType.h:11-25 | `ico` and `bmp` are answered with `image/x-icon` and `image/bmp` |
| `ContentType.ExtensionlessPathIsPng` | Path.cpp:54-58 | the extension of a path with no `.`, or with a trailing `.`, is looked up as `image/png` |

## Left out

- `HTTPStatusCode.h` holds named integer constants only; it has no behaviour to model.
- `Path.h` holds declarations only; its signatures are the ones modelled.
- Arduino `String` internals are not modelled: heap allocation, strings left invalid by a failed allocation, and copy-on-write. Strings are immutable values here.
- The library's comparisons stop at a NUL character (`strcmp`, `strstr`, `strchr`). A string holding `'\0'` is not modelled; every character is compared.
- `ArduinoString.EndsWith`: does not model the library's "no buffer" case, which answers false for a string that was never allocated. The source only asks about the suffix `"/"`, and no empty string ends with it anyway.
- `ArduinoString.IndexOf`: models the single-character search from position 0, the only form the source uses.
- `ArduinoString.LastIndexOf`: models the search for one character. The source passes one-character string literals, and for those the library's substring search finds exactly the last occurrence.
- Positions are unbounded integers. The library returns positions as a 16-bit `int` on small boards, which matters only for strings longer than 32767 characters; such strings do not fit in the memory of those boards.
- The four TODO comments of `Path.cpp` describe behaviour the code does not implement, so it is not modelled: `combinePaths` does not replace `\` with `/` (line 10) and does not normalise its two parts (line 11); `hasFile` does not check for content after the `.` (line 36); `getFileName` does not check that a file exists (line 46).
- A Dafny `char` stands for one byte of an Arduino `String`. Every character searched for (`.`, `/`, `\`) is ASCII, so byte positions and character positions coincide for every result modelled here.
- Request routing, networking and filesystem access do not appear in these components.
