# GUDS upload core in Dafny

GUDS (Geoserver Upload and Download Scripts) pushes snow-model output
(netCDF files) to a GeoServer instance: it works out where the file lives
on the server (logging, but never running, an scp command to put it there),
creates a coverage store for it and one layer per variable, and attaches
styles to those layers. This project models the decision-making and naming
logic of `guds/upload.py` as pure functions over values, and proves what
the code promises.

The modelled parts are:

- **Layer naming (`LayerNaming`).** This covers how `create_layer` derives
  several things from a netCDF variable name:
  - the native name (spaces become underscores, hyphens are dropped);
  - the display name, via the remap table `snow_density`→`density`,
    `specific_mass`→`SWE`, `thickness`→`depth`;
  - the published name (display name plus the date without hyphens);
  - the title (title-cased, or basin plus `SWE` for snow water equivalent);
  - the coverage payload, including the value-range dimension.
- **Style selection (`Styles`).** `get_keyword_styles` offers, keyword by
  keyword, every server style that shares a keyword with the layer, then
  `dynamic_default`. `assign_colormaps` takes `dynamic_default` as the
  default colormap if it was offered, and `raster` otherwise.
- **Existence check (`Existence`).** This models `exists` over a catalog
  of workspaces, coverage stores and coverages, held as a value. The model
  keeps the code's three-flag tally and its loop-variable leftovers. The
  proofs show that a true answer is always right. They also show that, when
  names are unique, everything that is present is reported.
- **Confirmation prompt (`Prompt`).** `ask_user` reads a sequence of
  answers and keeps asking until one is recognised.
- **Paths and names (`Paths`).** This covers:
  - the prepared model file's name;
  - the topographic and model store names;
  - the coverage-store url;
  - the layer variables of a file;
  - the download request;
  - the host named in the logged copy command, derived from the server address.
- **Supporting modules.**
  - `Text` has ASCII versions of the Python string operations the code
    uses: `lower`, `upper`, `title`, `replace`, character filtering, `in`,
    `split`, `join` and `os.path.basename`. Each comes with its algebra,
    such as the split/join round trips.
  - `Decimal` covers zero-padded digits and ISO dates, with decoding.
  - `Results` holds `Option` and `Result`.

## Model

| member | source | states |
|---|---|---|
| Text.Title | guds/upload.py:629-631 | `str.title` on ASCII: a letter right after a letter is lowered, every other letter is raised, and everything else is kept |
| Text.TitleKeepsText | guds/upload.py:629-631 | `str.title` changes only the case of letters: other characters stay where they are, and lower-casing the result gives the lower-cased input |
| Text.TitleIdempotent | guds/upload.py:629-631 | title-casing an already title-cased string changes nothing |
| Text.RemoveMembers | guds/upload.py:328 | filtering characters keeps exactly the characters outside the dropped set |
| Text.ContainsIff | guds/upload.py:734 | the substring test `key in s` holds exactly when key occurs at some index of s |
| Text.JoinSplit | guds/upload.py:70 | joining the fields of `s.split(sep)` with sep gives s back |
| Text.SplitJoin | guds/upload.py:70 | splitting a join of separator-free fields gives the fields back |
| Text.ConcatSplit | guds/upload.py:915 | `"".join(s.split(sep))` is s with every sep deleted |
| Text.FirstFieldIsPrefix | guds/upload.py:329 | `s.split(".")[0]` is the longest dot-free prefix of s |
| Text.BasenameInDirectory | guds/upload.py:555 | the basename of dir + "/" + name is name when name has no slash, and a path without a slash is its own basename |
| Decimal.PadValue | guds/upload.py:326 | the zero-padded digits of a date field read back as the number printed |
| Decimal.IsoDateWithoutHyphens | guds/upload.py:915 | deleting the hyphens of the ISO date gives the eight-digit compact date |
| Decimal.CompactDateDecodes | guds/upload.py:915 | the compact date's digit groups read back as year, month and day |
| LayerNaming.NativeName | guds/upload.py:614-615 | the native name holds no space and no hyphen |
| LayerNaming.NativeNameCharwise | guds/upload.py:614 | the two rewrites equal one character-by-character rewrite (hyphen dropped, space to underscore, other characters kept) |
| LayerNaming.NativeNameIdempotent | guds/upload.py:614 | a native name is its own native name |
| LayerNaming.CanonicalName | guds/upload.py:617-621 | names in the remap table are replaced by their remap value; all other names are kept |
| LayerNaming.LayerTitle | guds/upload.py:624-631 | a title is as long as basin, date and name with two separating spaces, and never shows an underscore |
| LayerNaming.SweTitle | guds/upload.py:624-627 | an SWE layer's title is the title-cased basin, the date and "SWE", with underscores shown as spaces |
| LayerNaming.PlainTitle | guds/upload.py:628-631 | any other title is title-cased, has no underscore, and matches the space-joined basin, date and name apart from letter case |
| LayerNaming.PublishedName | guds/upload.py:633-635 | the published name starts with the display name, and what follows holds exactly the date's characters other than '-' |
| LayerNaming.PublishedNameOfIsoDate | guds/upload.py:633-635 | for an ISO date the published name is the display name followed by the eight digits YYYYMMDD |
| LayerNaming.CreateLayer | guds/upload.py:614-656 | with no date recorded the call fails. Otherwise it gives the native, published and title names, the store reference `basin:store`, and the coverages resource; a range dimension named after the layer is attached exactly when a range was recorded for the native name |
| LayerNaming.PublishedNameIsClean | guds/upload.py:614-635 | for a date without spaces, published names hold neither spaces nor hyphens |
| LayerNaming.KingsSweName | guds/upload.py:614-635 | `specific_mass` in basin kings on 2019-04-18 is published as "SWE20190418" |
| LayerNaming.KingsSweTitle | guds/upload.py:624-627 | and is titled "Kings 2019-04-18 SWE" |
| Styles.StylesFor | guds/upload.py:727-743 | only available styles are offered, and `dynamic_default` closes the list when the server has it |
| Styles.MatchingStylesMembers | guds/upload.py:733-735 | the styles matched for one keyword are exactly the available styles whose lowered name contains it, given that the lowered layer name does too |
| Styles.MatchingStylesKeepOrder | guds/upload.py:733-735 | matching keeps the order in which the server lists styles |
| Styles.KeywordMatchesKeywordMajor | guds/upload.py:732-735 | results come keyword by keyword in vocabulary order |
| Styles.KeywordMatchesMembers | guds/upload.py:732-735 | a style is matched exactly when it is available and some keyword links it to the layer |
| Styles.StylesForMembers | guds/upload.py:727-743 | the offered styles are exactly the keyword-sharing available styles, plus `dynamic_default` when the server has it |
| Styles.DynamicDefaultLast | guds/upload.py:740-741 | `dynamic_default` ends the list exactly when the server has it |
| Styles.KeywordStyles | guds/upload.py:727-743 | the nested loops compute exactly the keyword-major list, with the membership characterisation above |
| Styles.DefaultColormap | guds/upload.py:679-682 | the default colormap is always `dynamic_default` or `raster` |
| Styles.DefaultColormapChoice | guds/upload.py:679-682 | a layer's default colormap is `dynamic_default` exactly when the server has that style, whatever the layer is called |
| Existence.Scan | guds/upload.py:471-474 | a scan that breaks on a match stops at the first match, or stays on the last entry when nothing matches |
| Existence.BasinWorkspace | guds/upload.py:467-474 | a workspace is inspected exactly when the server lists any, and it is one of them; the workspace flag is set exactly when the lowered basin name is among the listed workspace names |
| Existence.StoreCheck | guds/upload.py:476-492 | the store flag is asked exactly for a named store, and it is set exactly when the inspected workspace lists a coverage store of that name, which is then the store found |
| Existence.Checks | guds/upload.py:450-505 | three flags: the workspace flag is always asked, the store flag exactly when a store is named, the layer flag exactly when a layer is named; a layer is found only inside a found store |
| Existence.Exists | guds/upload.py:506-517 | `exists` answers true exactly when none of the asked flags is false |
| Existence.AllFoundIff | guds/upload.py:506-517 | "as many true flags as non-None flags" means that no asked level was found missing |
| Existence.ExistsSound | guds/upload.py:450-517 | a true answer means the basin's workspace exists, holds the named store, and that store holds the named layer |
| Existence.ExistsBasinIff | guds/upload.py:467-474 | asked about the basin alone, `exists` is true exactly when some workspace carries the lowered basin name, with no assumption on the catalog |
| Existence.ExistsComplete | guds/upload.py:450-517 | when workspace names and store names are unique, everything present is reported as existing |
| Existence.LayerWithoutStore | guds/upload.py:494-495 | asking about a layer without naming its store always answers false |
| Existence.MissingParent | guds/upload.py:450-517 | a missing workspace makes every question false, and a store missing from the basin's workspace makes every question about its layers false |
| Prompt.Classify | guds/upload.py:986-994 | an answer is recognised exactly when, lowered, it is y, yes, n or no, so a recognised answer has one to three characters |
| Prompt.ClassifyCaseInsensitive | guds/upload.py:986-994 | answers are read without regard to case; y/yes mean yes and n/no mean no |
| Prompt.AskUser | guds/upload.py:978-996 | with bypass set the reply is yes and nothing is read. Otherwise the first recognised answer decides and every earlier answer was unrecognised; when input runs out first there is no reply. This matches the recursive reference definition |
| Paths.CleanDate | guds/upload.py:328 | the cleaned date holds neither ':' nor '-' |
| Paths.CleanIsoDate | guds/upload.py:326-328 | an ISO date cleans to its eight-digit compact form |
| Paths.Stem | guds/upload.py:317-329 | the stem is the part of the path's basename before its first dot: a prefix of the basename, with no dot or slash, followed in the basename by '.' unless it is all of it |
| Paths.StemOfFileName | guds/upload.py:317-329 | a file name such as `snow.nc`, with one dot and no directory, has the text before the dot as its stem |
| Paths.ModeledFileName | guds/upload.py:329 | the prepared name is as long as stem, '_', cleaned date and ".nc" together |
| Paths.ModeledFileNameParts | guds/upload.py:328-329 | the prepared name splits back into its dated stem and "nc", and is its own basename |
| Paths.TopoStoreName | guds/upload.py:864 | the topographic store name is the basin followed by "_topo" |
| Paths.ModeledStoreName | guds/upload.py:890-891 | a model store name is the basin, then '_', then text with no dot or slash |
| Paths.ModeledStoreOfUpload | guds/upload.py:890-891 | an unmasked prepared model file copied anywhere gets the store basin_stem_YYYYMMDD, which is never the topographic store |
| Paths.CoverageStoreUrl | guds/upload.py:583-584 | the store url names the same file as the path it was built from |
| Paths.CoverageStoreUrlOfCopy | guds/upload.py:583-584 | for a file copied into any directory, the url is file:basins/basin/name |
| Paths.LayerVariables | guds/upload.py:816-819 | no time, x, y or projection variable becomes a layer |
| Paths.LayerVariablesMembers | guds/upload.py:816-819 | the layers are exactly the file's variables other than time, x, y and projection |
| Paths.LayerVariablesConcat | guds/upload.py:816-819 | filtering keeps the file's variable order |
| Paths.SelectLayers | guds/upload.py:816-823 | the upload stops exactly when every variable is a coordinate or projection variable; otherwise it has at least one layer, and the layers are exactly the others |
| Paths.Download | guds/upload.py:914-925 | a request is made exactly for the "modeled" kind, and its resource is the basin's resource path of the file name |
| Paths.DownloadFileName | guds/upload.py:914-918 | the file is masked_snow_YYYYMMDD.nc, and its digits read back as the requested date |
| Paths.StripPort | guds/upload.py:69-70 | the derived host is never longer than the network location, and a location without ':' is kept unchanged |
| Paths.StripPortDeletesHostColons | guds/upload.py:69-70 | as written, host:port gives the host with all of its own colons deleted |
| Paths.StripPortMangles | guds/upload.py:69-70 | "[::1]:8080" gives "[1]" |
| Paths.StripPortIntended | guds/upload.py:69-70 | a location without a port (no ':', or ending in the ']' of an IPv6 address) is kept unchanged; with a port, the result is the location up to its last ':', unaltered |
| Paths.StripPortIntendedKeepsHost | guds/upload.py:69-70 | with the fields rejoined by ':', host:port gives exactly host |
| Paths.StripPortIntendedOnIPv6 | guds/upload.py:69-70 | "[::1]:8080" gives "[::1]", and "[::1]" is kept as it is |
| Paths.StripPortAgreesOnPlainHosts | guds/upload.py:69-70 | for a host without colons both versions give the host |

## Left out

- The HTTP wrappers (`make`, `delete`, `move`, `modify`, `get`, `grab`, `handle_status`) are left out because they are network I/O. The server's listings appear as the `Existence.Catalog` value and the style-name sequence.
- File preparation in `extract_data` is left out: netCDF reading and writing, projection, masking and the value-range computation. Ranges come in as a map from variable to `[min, max]`, with floats modelled as `real`.
- Paths.ModeledStoreOfUpload and Paths.ModeledFileName cover unmasked uploads only. With a mask, `extract_data` replaces the prepared file by the output of `mask_nc`. That file's name, and so the copied file, the store name and the store url, is chosen by the masking library and is not modelled.
- `copy_data` only computes the remote path and logs the scp command that would copy the file there; the call that would run it is commented out, so nothing is copied. The command itself is not modelled. The copy destination appears only as the directory argument of `Paths.ModeledStoreOfUpload` and `Paths.CoverageStoreUrlOfCopy`.
- The curl call in `assign_colormaps` (which sets the layer's default style and style list), the upload and submit orchestration, logging, timing, `write_json` and `main` are left out. They are I/O and control flow around the modelled functions.
- URL parsing (`urljoin`, `urlparse`) is left out; the network location is an input. Date parsing (`pandas.to_datetime`, `num2date`) is also left out; the date is an input `(year, month, day)` with year 1..9999, month 1..12 and day 1..31, and month lengths are not checked.
- Text.Lower, Text.Upper and Text.Title change the case of ASCII letters only; Unicode case mapping is not modelled.
- LayerNaming.CreateLayer models a missing date as an error. Python would fail with a missing-attribute error at the title line, before the later `hasattr` test. That makes the `hasattr` guard dead code, so the "no date appended" branch is not modelled.
- LayerNaming.PublishedNameIsClean requires a date without spaces. A date from `isoformat` never has one.
- Existence.ExistsComplete assumes unique workspace names and unique store names within a workspace. Without that assumption completeness fails: only the first workspace of the basin's name is inspected, so a store held by a later workspace of the same name is reported missing. GeoServer itself refuses duplicate workspace names and duplicate store names in one workspace, so the assumption holds of every catalog the server can list. A question about the basin alone needs no such assumption (Existence.ExistsBasinIff).
- Existence.Checks: a listing that is present but holds no workspace leaves the loop variable unbound, and asking for a store then fails with a `NameError`. The model treats that listing like an absent one: no workspace is inspected and the answer is false.
- Styles.KeywordStyles takes the style names the server lists. When the server has no styles at all, its listing is an empty string, and the source fails with a `TypeError` reading the style list. The model instead offers no keyword style and falls back to `raster`; that failure is not modelled.
- Prompt.AskUser returns no reply when input runs out; Python raises `EOFError` there. The prompt text is not modelled.
- `print` and the log messages are not modelled.

## Findings

| source | as written | input that shows it | evidently intended | confidence | as-written member | corrected member |
|---|---|---|---|---|---|---|
| guds/upload.py:69-70 | the port is stripped by splitting the network location on ':' and gluing all but the last field back with "" | "[::1]:8080" gives "[1]", because the IPv6 host loses its colons; the mangled host reaches only the logged scp command (upload.py:420-421) and the debug line at upload.py:99 | drop only the port: keep everything before the last ':' intact (rejoin with ':'), and leave a bracketed IPv6 address without a port alone | medium, not executed | Paths.StripPortMangles | Paths.StripPortIntendedKeepsHost |
