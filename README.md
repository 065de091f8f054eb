# autosplit / autojoin in Dafny

A model of the decision logic of two Ruby scripts that split and join two-page book scans.

`autosplit.rb` handles each image given on the command line:
- it finds the spine, the darkest column of the middle 20% of the scan;
- it paints a three-pixel red stripe over the spine;
- it writes the result as `name.autosplit.ext`.

`split_image` computes the two overlapping page crops, `_left` and `_right`. The main loop does not call it (the call is commented out), but it is part of the script and is modelled too.

`autojoin.rb` walks a sorted directory listing:
- files at even indices are versos and become `_left` pages;
- files at odd indices are rectos and become `_right` pages;
- each recto is joined with the verso just before it into an `_opening` image, whose montage cell is the larger width by the larger height of the two pages.

Files:
- `strings.dfy` (module `Strings`) models the two pieces of Ruby's core library the file naming rests on:
  - `String#sub` with a literal pattern, which replaces the first occurrence only;
  - `File.extname`, in the simplified form described below.
- `autosplit.dfy` (module `AutoSplit`) covers:
  - the image as rows of 16-bit RGB pixels;
  - `find_spine`, as a method with loops, proved against the ghost predicate `IsSpine`;
  - `split_image`, as a pure function;
  - `draw_line`, as a method writing in place into an `array2` pixel buffer;
  - the body of the per-file loop.
- `autojoin.dfy` (module `AutoJoin`) covers:
  - the page names returned by `preprocess_verso` and `preprocess_recto`;
  - `join_opening`;
  - `process_directory`, as a loop carrying `leftFilename`. It is proved equal to the pairwise reference `Schedule`, and the counting and pairing properties are proved about `Schedule`.

Some properties show the source's behaviour as written:
- `sub` replaces the FIRST occurrence of the extension, so "a.png.png" becomes "a_left.png.png";
- `sub` replaces the first occurrence of `_left`, so "book_left/p_left.png" becomes "book_opening/p_left.png";
- a name with no extension gets the suffix in front, because the empty pattern matches at index 0.

These are proved as lemmas. They are part of the model, not corrections to it.

## Model

| member | source | states |
|---|---|---|
| Strings.MatchesFromCorrect | autosplit.rb:28 | the character-wise comparison used by the search agrees with slice equality |
| Strings.FindFromCorrect | autosplit.rb:28 | the search returns an occurrence of the pattern with none earlier, and returns nothing only when the pattern occurs nowhere from there on |
| Strings.Sub | autosplit.rb:28 | `String#sub` with a literal pattern: it returns the string unchanged when there is no match, otherwise the pattern's length is replaced by the replacement's; SubAtFirst and SubAbsent tie it to the first occurrence |
| Strings.SubAtFirst | autosplit.rb:28 | `sub` splices the replacement in at the first occurrence and keeps everything before and after it |
| Strings.SubAbsent | autojoin.rb:59 | `sub` leaves a string without the pattern unchanged |
| Strings.SubEmptyPattern | autosplit.rb:27-28 | with an empty pattern (a name without an extension) `sub` puts the replacement in front of the whole string |
| Strings.AbsentFromPrefix | autojoin.rb:59 | a pattern absent from a string is absent from each of its prefixes |
| Strings.FirstAfterStem | autojoin.rb:59 | a pattern whose first character does not recur in it, placed after a stem that lacks it, first occurs exactly where it was placed |
| Strings.SubAfterStem | autojoin.rb:59 | substituting such a pattern in `stem + pat + tail` gives `stem + rep + tail` |
| Strings.ExtName | autosplit.rb:27 | `File.extname` (simplified): the extension is a suffix of the path; ExtStartCorrect, ExtNameShape and ExtNameOf fix which suffix |
| Strings.ExtStartCorrect | autosplit.rb:27 | the extension's dot is a '.' that does not open the base name, with no '.' or '/' after it |
| Strings.ExtNameShape | autosplit.rb:27 | the extension is a suffix of the path, empty or starting with '.', with no further '.' or '/' in it |
| Strings.ExtStartOf | autosplit.rb:27 | in `stem.e` the scan from the right stops at the dot after the stem |
| Strings.ExtNameOf | autosplit.rb:27 | `stem.e`, with a plain `e` and a stem not ending in '/', has extension `.e` |
| AutoSplit.ColumnSumBound | autosplit.rb:74-77 | each row adds at most 3 * 65535 to a column sum |
| AutoSplit.SentinelAboveEveryColumn | autosplit.rb:70 | the starting minimum 4 * 65535 * rows is strictly above every column's brightness once there is a row, so the first scanned column always replaces it |
| AutoSplit.ScanRangeInImage | autosplit.rb:63-65 | the scanned range cols/2 - cols/10 .. cols/2 + cols/10 lies inside [0, cols) |
| AutoSplit.SpineUnique | autosplit.rb:73-82 | at most one column is in range, no brighter than any scanned column and strictly darker than those to its left |
| AutoSplit.UniqueDarkestIsSpine | autosplit.rb:78-80 | a scanned column strictly darker than every other scanned column is the spine |
| AutoSplit.ColumnBrightness | autosplit.rb:74-77 | the accumulated `total` is exactly the sum of red+green+blue over all rows of the column |
| AutoSplit.ScanStep | autosplit.rb:78-81 | examining one more column keeps the scan's invariant: the best column so far is the lowest of the darkest among those scanned |
| AutoSplit.ScanDone | autosplit.rb:73-85 | after the last column the best one is the spine, or 0 when there are no rows |
| AutoSplit.FindSpine | autosplit.rb:58-86 | with at least one row the result is in the scanned range, no brighter than any scanned column, and strictly darker than every scanned column to its left (lowest x on a tie); with no rows the result is 0 |
| AutoSplit.PageName | autosplit.rb:27-28 | `filename.sub(ext, suffix + ext)`: the page name is exactly the suffix longer than the file name, because the extension always matches; PageNameForm and PageNameOf give its shape |
| AutoSplit.PageNameForm | autosplit.rb:27-28 | when the extension occurs only at the end, the page is stem + suffix + ext; without an extension it is suffix + name |
| AutoSplit.PageNameOf | autosplit.rb:27-28 | `stem.e`, with `.e` absent from the stem, becomes `stem` + suffix + `.e` |
| AutoSplit.SuffixBeforeExtension | autosplit.rb:28 | replacing `.e` by suffix + `.e` in `stem.e` changes only the end when the stem lacks `.e` |
| AutoSplit.PageNameRepeatedExtension | autosplit.rb:27-28 | the first occurrence of the extension wins: "a.png.png" gets "a_left.png.png" |
| AutoSplit.SplitImage | autosplit.rb:21-35 | the left crop starts at 0 with width exactly center + cols/50; the right crop starts exactly at center - cols/50 and ends at cols; both span all rows; they overlap by 2 * (cols/50); together they cover every column; a column is in both exactly when it lies in [center - m, center + m) inside the image; the `_left` and `_right` names |
| AutoSplit.SplitWithinImage | autosplit.rb:24-32 | for a center in the scanned range both crops lie within the image |
| AutoSplit.StripeFitsAtSpine | autosplit.rb:48 | the 3-column stripe at the spine fits in the image exactly when it is at least 3 columns wide |
| AutoSplit.DrawLine | autosplit.rb:41-51 | columns x-1..x+1 of every row become red and no other pixel changes, and the name is `.autosplit` + ext; a block outside the image is refused and the buffer is unchanged |
| AutoSplit.AutosplitFile | autosplit.rb:93-100 | the stripe is drawn over the spine of the image as it was; it is drawn exactly when the image is at least 3 columns wide |
| AutoJoin.PreprocessVerso | autojoin.rb:24-33 | the verso's `_left` page name is 5 characters longer than the file name; VersoName and VersoNameWithoutExtension give its shape |
| AutoJoin.PreprocessRecto | autojoin.rb:36-44 | the recto's `_right` page name is 6 characters longer than the file name; RectoName gives its shape |
| AutoJoin.VersoName | autojoin.rb:31-32 | `stem.e`, with `.e` absent from the stem, gives the verso page `stem_left.e` |
| AutoJoin.RectoName | autojoin.rb:42-43 | `stem.e`, with `.e` absent from the stem, gives the recto page `stem_right.e` |
| AutoJoin.VersoNameWithoutExtension | autojoin.rb:31-32 | a name without an extension gives the verso page `_left` + name |
| AutoJoin.JoinOpening | autojoin.rb:47-62 | the cell width and height are each at least both pages' and equal to one of them; the output name is the verso's with its first `_left` replaced by `_opening` |
| AutoJoin.OpeningName | autojoin.rb:59 | `verso.sub("_left", "_opening")`: the name is unchanged or 3 characters longer; OpeningNameForm says which |
| AutoJoin.OpeningNameForm | autojoin.rb:59 | the first `_left` becomes `_opening`, and a name without `_left` is unchanged |
| AutoJoin.OpeningOfPage | autojoin.rb:59 | the page `stem_left.e`, with no `_left` in the stem, is joined into `stem_opening.e` |
| AutoJoin.OpeningOfVerso | autojoin.rb:31-32 | a verso `stem.e` with no `_left` and no stray extension becomes the opening `stem_opening.e` |
| AutoJoin.OpeningNameInLeftDirectory | autojoin.rb:59 | an earlier `_left` in the path wins: "book_left/p_left.png" is joined into "book_opening/p_left.png" |
| AutoJoin.ScheduleSnoc | autojoin.rb:66-73 | one more file adds its verso call (even count) or its recto call and the join with the previous file's page (odd count) |
| AutoJoin.ScheduleStep | autojoin.rb:67-72 | the calls the file at index i adds, by the parity of i |
| AutoJoin.ScheduleLength | autojoin.rb:66-73 | n files make n preprocessing calls and n/2 joins |
| AutoJoin.ScheduleOpening | autojoin.rb:66-73 | opening k preprocesses file 2k as verso and file 2k+1 as recto and joins their pages |
| AutoJoin.ScheduleTrailing | autojoin.rb:67-68 | with an odd count, the last file is only preprocessed as a verso and never joined |
| AutoJoin.CountJoinsAppend | autojoin.rb:72 | joins in a concatenation add up |
| AutoJoin.ScheduleJoinCount | autojoin.rb:66-73 | n files give exactly n/2 joins |
| AutoJoin.ProcessListing | autojoin.rb:65-75 | the loop that carries `left_filename` makes exactly the pairwise schedule, for any page naming |
| AutoJoin.ProcessDirectory | autojoin.rb:64-76 | over a sorted listing, the calls are the schedule with the page names of `preprocess_verso` and `preprocess_recto` |

## Left out

- Image library internals are not modelled:
  - `deskew` (the scan is taken as already deskewed), `crop`, `write` and `montage` tiling;
  - `get_pixels` beyond returning column x;
  - the clipping rules of `store_pixels`, which is modelled as a bounds-checked block write that refuses any block outside the image.
- What `join_opening` does with the images:
  - the page sizes come from reading files, so they are parameters;
  - the montage output is not modelled, only its cell size and file name.
- External commands are not modelled:
  - the `system` calls that run autosplit on each page;
  - the command strings and their options (`--trim`, `--no_detect`, `--fudge_factor`, `--spine_side`). The splitting script never parses them: its `ARGV` loop would treat each option as an image file name;
  - the `autosplit` path helper.
- Listing the directory is not modelled: `Dir.glob` returns the names and `.sort` orders them, so `ProcessDirectory` takes the listing already sorted.
- Command-line handling is not modelled: `ARGV` iteration over directories, `OptionParser`, the help screen and `exit`.
- `ARGV` iteration over files in autosplit.rb is modelled one file at a time, by `AutosplitFile`.
- Error exits are not modelled. An exception ends the whole run:
  - a `RangeError` from `store_pixels`, or an unreadable image, stops autosplit.rb at that file, and the later files are never processed;
  - an unreadable page in `join_opening` stops `process_directory`, and the later files and directories are skipped.
  `AutosplitFile` returns `Err` for one file only. `ProcessListing` assumes every call returns.
- `GC.start` and the `print` / `p` logging are left out. They have no effect on the results.
- `File.extname` is simplified:
  - the extension is from the last '.' after the last '/', unless that '.' opens the base name;
  - Ruby's rules for runs of leading dots, trailing dots and Windows separators are not modelled.
- Images, crops and pixel channels are exact integers. The 16-bit quantum is the constant 65535.
- Strings.Sub: only literal patterns are modelled, which is how the scripts use `sub`. Regular-expression patterns are not modelled.
- Strings.Sub: the replacement is pasted in as plain text. Ruby expands backslash sequences in a String replacement (`\0`, `\&`, `` \` ``, `\'`, `\\`), so names whose extension holds a backslash are not modelled. For `x.p\0` Ruby gives `x_left.p.p\0`, while the model gives `x_left.p\0`.
