# AppIcons: dimension strings and the asset-catalog manifest

AppIcons is a macOS tool that makes the icon images of an Xcode app-icon
set from one source image. It reads the set's `Contents.json`. For each
entry of its `images` array, it parses the entry's `size` string (such as
`"32x32"`) at the entry's `scale` and resamples the source image to the
scaled height. It saves each icon as `AppIcon<size>-<scale>.png` and then
writes `Contents.json` back with every entry's `filename` filled in and the
author and version stamped into `info`.

This project models that bookkeeping in Dafny:

- `Scaler` holds the two dimension-string parsers. `SizeFromWxHString`
  reads 64-bit integers. `DimensionsFromWxHString` reads decimals and
  multiplies them by a scale.
- `Numerals` holds the numeral readers they use. `ParseInt` stands for
  Swift's `Int(_:)` and `ParseDouble` for `Double(_:)`. It also has a
  decimal printer, `FormatInt`, which the readers are proved against.
- `Strings` holds Swift's `split(separator:)` (`Split`, empty pieces
  dropped) and Foundation's `components(separatedBy:)` (`Components`,
  empty pieces kept), with their join and concatenation laws. It also has
  ASCII upper-casing.
- `Optional` holds Swift's `Optional`. It also has `Values`, which keeps
  the present values of a sequence in order (the effect of an `if let`
  inside a loop), with its laws.
- `IconsViewController` models the manifest and the operations on it.
  `MakeScaledImages` is a method with the source's loop, proved against
  the specification function `ScaledIcons`. `BuildContentsJsonFile` is a
  method with the source's index loop, proved against `Rewritten`.
  `SaveIconFiles` runs the two in sequence. `FileFormatLabel` is the
  label of the info view.

Swift's runtime traps are stated as preconditions. Each `requires` that
stands for a trap says so in its doc comment:

- `HasPiece` stands for `first!` on an empty piece list. It fails exactly
  on size strings made only of `x`s, the empty string included.
- In `BuildContentsJsonFile`, `|fileNames| >= |images|` stands for
  `fileNames[index]` past the end of the list.

`MadeNamesCoverIff` shows when the second trap is avoided: exactly when
the manifest has no entries, or there is a source image and every size
string parses.

The inputs that come from outside the program are parameters:

- `hasSourceImage` is whether an image is loaded.
- `scaleOf` is SwiftyJSON's `doubleValue` of the scale string, such as
  `"2x"`.
- `appInfo` is the bundle's info dictionary.

What each operation hands on is its result. For `MakeScaledImages` this
is the `IconFile` log: the name and the resample target of every icon it
attempts, one per entry whose size string parses. The source records the
name whether or not the resampling and the PNG write succeed, so the log
lists the icons attempted, not the files that reach the disk. For
`BuildContentsJsonFile` the result is the `Manifest` it writes back, or
`None`.

## Model

| member | source | states |
|---|---|---|
| Scaler.SizeFromWxHString | AppIcons/Scaler.swift:20-27 | nil exactly when the first or the last non-empty `x`-separated piece is not an integer numeral within 64 bits; otherwise the width and the height are the values of those two numerals |
| Scaler.DimensionsFromWxHString | AppIcons/Scaler.swift:39-47 | nil exactly when the first or the last piece is neither an integer numeral nor a signed decimal numeral; otherwise the width is the exact value of the first piece times the scale and the height that of the last piece, each end read on its own |
| Scaler.HasPieceIff | AppIcons/Scaler.swift:21-22 | `first!` does not trap exactly when the string has a character other than `x` |
| Scaler.TrappingStrings | AppIcons/Scaler.swift:21-22 | "" and "xx" make both parsers trap |
| Scaler.SinglePiece | AppIcons/Scaler.swift:21 | a non-empty string without `x` is its own first and last piece |
| Scaler.EndPieces | AppIcons/Scaler.swift:21-22 | for `a + "x" + b` the first piece comes from `a` and the last from `b` |
| Scaler.SameEndsSameResult | AppIcons/Scaler.swift:20-47 | strings with the same first and last pieces give the same size and the same dimensions |
| Scaler.MiddlePiecesIgnored | AppIcons/Scaler.swift:20-47 | inserting `"x" + middle` between the ends changes neither result |
| Scaler.LoneNumeral | AppIcons/Scaler.swift:20-27 | a string without `x` is read as N by N whenever it is an `Int` numeral, and gives nil otherwise |
| Scaler.FormattedPieces | AppIcons/Scaler.swift:21 | the pieces of a formatted "WxH" are the two numerals |
| Scaler.SizeOfFormatted | AppIcons/Scaler.swift:20-27 | "WxH" yields (W, H) when both fit in 64 bits and nil otherwise |
| Scaler.DimensionsOfFormatted | AppIcons/Scaler.swift:39-47 | "WxH" at scale s yields (W times s, H times s) for integers of any size |
| Scaler.DimensionsScale | AppIcons/Scaler.swift:39-47 | success does not depend on the scale, and the scaled result is the unscaled one times the scale |
| Scaler.DimensionsExtendSize | AppIcons/Scaler.swift:20-47 | wherever the `CGSize` parser succeeds, the dimension parser succeeds with the same values times the scale |
| Scaler.SizeAndDimensionsOnIntegerNumerals | AppIcons/Scaler.swift:20-47 | on integer-numeral ends the dimension parser always succeeds, while the size parser succeeds exactly when both values fit in 64 bits |
| Scaler.SixteenBySixteen | AppIconsTests/AppIconsTests.swift:33-39 | "16x16" gives the size (16, 16) |
| Scaler.NoSeparatorNoSize | AppIconsTests/AppIconsTests.swift:46-51 | "16y16" does not trap and gives nil |
| Scaler.ThirtyTwoByThirtyTwo | AppIconsTests/AppIconsTests.swift:59-74 | "32x32" gives (32, 32), and (64, 64) at scale 2 |
| Scaler.NoSeparatorNoDimensions | AppIconsTests/AppIconsTests.swift:81-86 | "32y32" does not trap and gives nil |
| Scaler.FractionalSize | AppIcons/Scaler.swift:20-47 | "1.5x1.5" gives no size, and gives the dimensions (1.5, 1.5) |
| Scaler.PaddedAndSigned | AppIcons/Scaler.swift:20-27 | "016x+16" gives the size (16, 16): leading zeros and a plus sign are part of an `Int` numeral |
| Scaler.DecimalSides | AppIcons/Scaler.swift:39-47 | "1.5x2.25" at scale 2 gives the dimensions (3, 4.5) |
| Scaler.MixedSides | AppIcons/Scaler.swift:39-47 | "20x-29.5" at scale 2 gives the dimensions (40, -59): an integer end beside a signed decimal end |
| Numerals.ParseInt | AppIcons/Scaler.swift:21 | the digit loop of `Int(_:)` succeeds exactly on a sign and at least one digit whose value fits in 64 bits, and returns that value |
| Numerals.ReadDigitsMeaning | AppIcons/Scaler.swift:21 | the digit loop, which fails at a non-digit or as soon as the running value leaves the 64-bit range, succeeds exactly when the whole numeral is digits whose signed value fits, and returns that value |
| Numerals.ParseIntOfFormat | AppIcons/Scaler.swift:21 | `Int(_:)` reads back every printed integer within 64 bits and rejects every printed integer outside that range |
| Numerals.ParseDouble | AppIcons/Scaler.swift:40 | a value read by `Double(_:)` has the numeral's sign, and the digits before the point are its whole part: its magnitude is at least their value and less than that value plus one |
| Numerals.ParseDoubleWithoutPoint | AppIcons/Scaler.swift:40 | without a decimal point, `Double(_:)` accepts exactly the integer numerals, with their value |
| Numerals.ParseDoubleOfIntNumeral | AppIcons/Scaler.swift:40 | an integer numeral of any size is read by `Double(_:)` as its value |
| Numerals.ParseDoubleExtendsParseInt | AppIcons/Scaler.swift:21-40 | wherever `Int(_:)` succeeds, `Double(_:)` succeeds with the same value |
| Numerals.ParseDoubleOfFormat | AppIcons/Scaler.swift:40 | `Double(_:)` reads back every printed integer |
| Numerals.ParseDoubleOfDecimal | AppIcons/Scaler.swift:40 | digits, a point and digits are read as the whole part plus the decimal fraction |
| Numerals.ParseDoubleOfDecimalNumeral | AppIcons/Scaler.swift:40 | a decimal numeral is read by `Double(_:)` as its exact value |
| Numerals.ParseDoubleMeaning | AppIcons/Scaler.swift:40 | `Double(_:)` succeeds exactly on the integer numerals and the signed decimal numerals, and returns the exact signed value each denotes |
| Numerals.SignedDecimal | AppIcons/Scaler.swift:40 | "-1.5" is read as -1.5 |
| Numerals.DottedDecimal | AppIcons/Scaler.swift:40 | "1.2.3" is refused |
| Numerals.FractionBound | AppIcons/Scaler.swift:40 | the fraction after the point lies in [0, 1) |
| Numerals.OneAndAHalf | AppIcons/Scaler.swift:21-40 | "1.5" is read by `Double(_:)` as 1.5 and refused by `Int(_:)` |
| Strings.Split | AppIcons/Scaler.swift:21 | every piece of `split` is non-empty and free of the separator |
| Strings.SplitConcat | AppIcons/Scaler.swift:21 | the split of `u`, a separator and `v` is the split of `u` followed by that of `v` |
| Strings.SplitWithoutSep | AppIcons/Scaler.swift:21 | a non-empty string without the separator splits into itself alone |
| Strings.SplitOfJoin | AppIcons/Scaler.swift:21 | `split` undoes joining non-empty, separator-free pieces |
| Strings.SplitIsEmpty | AppIcons/Scaler.swift:21-22 | `split` finds no piece exactly when the string is all separators |
| Strings.Components | AppIcons/IconsViewController.swift:111 | `components(separatedBy:)` gives at least one component, and no component contains the separator |
| Strings.JoinComponents | AppIcons/IconsViewController.swift:111 | joining the components with the separator gives the string back |
| Strings.ComponentsWithoutSep | AppIcons/IconsViewController.swift:111 | a string without the separator is its own only component |
| Strings.ComponentsConcat | AppIcons/IconsViewController.swift:111 | cutting at one separator splits the component list in two |
| Strings.ComponentsOfJoin | AppIcons/IconsViewController.swift:111 | the components of a join of separator-free pieces are those pieces |
| Strings.Uppercased | AppIcons/IconsViewController.swift:111 | upper-casing keeps the length, turns each lower-case ASCII letter into its capital, keeps every other character and leaves no lower-case ASCII letter |
| Strings.UppercasedIdempotent | AppIcons/IconsViewController.swift:111 | upper-casing twice is upper-casing once |
| IconsViewController.ImageFileName | AppIcons/IconsViewController.swift:243 | the name is "AppIcon", the raw size string, "-", the raw scale string and ".png"; given the length of the size string, both strings can be read back from the name |
| IconsViewController.ImageFileNameDetermines | AppIcons/IconsViewController.swift:243 | when the size strings hold no dash, equal names mean equal size strings and equal scale strings |
| IconsViewController.AmbiguousImageFileName | AppIcons/IconsViewController.swift:243 | with a dash in the size string the name is ambiguous: "1-2" at "3" and "1" at "2-3" both give "AppIcon1-2-3.png" |
| IconsViewController.EntryAttempt | AppIcons/IconsViewController.swift:241-245 | an entry yields an icon exactly when the first and the last piece of its size string are integer or signed decimal numerals, which `Double(_:)` reads; the icon is named by `ImageFileName` and resampled to the exact value of the last piece times the scale |
| IconsViewController.ScaledIcons | AppIcons/IconsViewController.swift:238-249 | at most one icon per entry |
| IconsViewController.MakeScaledImages | AppIcons/IconsViewController.swift:232-250 | with no source image nothing is attempted and no name returned; otherwise the icons attempted are `ScaledIcons` of the entries, and the names returned are their names in the same order |
| IconsViewController.ScaledImageStep | AppIcons/IconsViewController.swift:240-247 | one pass of the loop appends the entry's icon, with name `AppIcon<size>-<scale>.png` and the scaled height, exactly when its size string parses |
| IconsViewController.AttemptsAt | AppIcons/IconsViewController.swift:241-243 | an entry yields an icon exactly when its size string parses, and then it yields that entry's icon |
| IconsViewController.ScaledIconsSelect | AppIcons/IconsViewController.swift:238-249 | the icons are exactly those of the parsing entries, in manifest order: each index of a parsing entry is chosen once, in increasing order |
| IconsViewController.ScaledIconsCount | AppIcons/IconsViewController.swift:240-247 | there is one icon per entry exactly when every entry parses |
| IconsViewController.ScaledIconsAligned | AppIcons/IconsViewController.swift:240-247 | when every entry parses, icon i is entry i's |
| IconsViewController.ScaledIconsAppend | AppIcons/IconsViewController.swift:240-247 | the icons of two runs of entries are those of the first run followed by those of the second |
| IconsViewController.SkippedEntryShiftsNames | AppIcons/IconsViewController.swift:240-247 | after a skipped entry j, slot j holds the name of entry j+1 |
| IconsViewController.ResampleTargetIgnoresWidth | AppIcons/IconsViewController.swift:241-242 | the resample target is the scaled height: entries with the same height piece and scale get the same target |
| IconsViewController.OneOblongEntry | AppIcons/IconsViewController.swift:241-245 | the entry "16x32" at scale "2x" is saved as "AppIcon16x32-2x.png" and resampled to 64 |
| IconsViewController.OblongFileName | AppIcons/IconsViewController.swift:243 | the file name keeps the raw size and scale strings |
| IconsViewController.WithFileNames | AppIcons/IconsViewController.swift:201-204 | same number of entries; entry i is the old entry i with `filename` set to name i |
| IconsViewController.BuildContentsJsonFile | AppIcons/IconsViewController.swift:200-221 | without an `images` array nothing is written; otherwise the manifest written is `Rewritten` |
| IconsViewController.AppName | AppIcons/IconsViewController.swift:207 | the bundle's name, or "AppIcon" when the info dictionary has none |
| IconsViewController.AppVersion | AppIcons/IconsViewController.swift:208 | the bundle's version, or "N/A" when the info dictionary has none |
| IconsViewController.Rewritten | AppIcons/IconsViewController.swift:201-209 | the rewrite keeps the entry count and order, sets each entry's `filename` to the name at its index and `info.author` and `info.version`, and keeps every other key of every entry, every other `info` key and every other top-level field |
| IconsViewController.DefaultStamp | AppIcons/IconsViewController.swift:207-208 | with an empty info dictionary the author is "AppIcon" and the version "N/A" |
| IconsViewController.RewriteIdempotent | AppIcons/IconsViewController.swift:201-209 | rewriting twice with the same names is the same as rewriting once |
| IconsViewController.RewriteReadsOnlyLeadingNames | AppIcons/IconsViewController.swift:202-203 | names past the last entry are never read |
| IconsViewController.MadeNamesCoverIff | AppIcons/IconsViewController.swift:151-154 | the names makeScaledImages returns cover every entry, so that buildContentsJsonFile does not trap, exactly when the manifest is empty or there is a source image and every entry parses |
| IconsViewController.SaveIconFiles | AppIcons/IconsViewController.swift:148-157 | without an `images` array nothing is written; otherwise the icons are made and the manifest is rewritten with their names, so that entry i's `filename` is the name made from entry i itself |
| IconsViewController.FileFormatLabel | AppIcons/IconsViewController.swift:111 | there is always a last component, so the label never falls back to "N/A": it holds no dot and no lower-case ASCII letter |
| IconsViewController.FileFormatLabelWithoutDot | AppIcons/IconsViewController.swift:111 | a file name without a dot is its own label, upper-cased |
| IconsViewController.FileFormatLabelAfterLastDot | AppIcons/IconsViewController.swift:111 | otherwise the label is the text after the last dot, upper-cased |
| IconsViewController.FileFormatLabelExamples | AppIcons/IconsViewController.swift:111 | "icon.png" is labelled "PNG" and "photo.large.jpg" "JPG" |

## Left out

- Image resampling (`imageCIScale`, `imageCGScale`, `imageIOScale`), cropping and PNG encoding are image processing on Core Image, Core Graphics and Image I/O. The model keeps only what `makeScaledImages` passes to them: the file name and the target height.
- Logging: the `os_log` call when a size string does not parse (Scaler.swift, line 42) and the logging and `print` in `saveAsPNG` are output only and leave no trace in the model.
- Reading and writing files, path resolution, the open panel, window titles, `showWarning` and the alert on a failed write are I/O and user interface. A failed write of `Contents.json` is not modelled: the written manifest is the result.
- JSON parsing and serialisation are SwiftyJSON's. An entry is a map from keys to strings. `stringValue` of a missing key is "". A missing or non-array `images` is `None`.
- IconsViewController.BuildContentsJsonFile: assumes `info` is an object, because SwiftyJSON's behaviour when `info` is missing or not an object is not modelled.
- SwiftyJSON's `doubleValue` of the scale string (which reads "2x" as 2) is the parameter `scaleOf`, not a parser.
- Numerals.ParseDouble: accepts only an optional sign, digits, and an optional point followed by digits. Exponents, hexadecimal floats, "inf", "nan", ".5" and "1." are refused, although `Double(_:)` reads them. Values are exact rationals, not rounded to binary64.
- Scaler.SizeFromWxHString: width and height stay exact `Int` values. `CGSize(width:height:)` converts them to `CGFloat`, which rounds integers beyond 2^53 (9007199254740993 becomes 9007199254740992) and turns `Int.max` into 2^63.
- Scaler.DimensionsFromWxHString: the multiplication by the scale is exact real arithmetic, not floating point.
- Strings.Split: cuts at the code point `x`. Swift's `split(separator:)` compares grapheme clusters, so an `x` followed by a combining mark, as in "16x\u{301}16", does not separate pieces there, while it does in the model.
- Strings.Uppercased: folds only the ASCII letters. Swift's `uppercased()` follows Unicode case mapping, and Swift strings are made of grapheme clusters rather than code points.
- The drag-and-drop view, the app delegate and the rest of the view controller are user interface and do not touch the manifest.
