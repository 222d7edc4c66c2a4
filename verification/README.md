# a3update core, modelled in Dafny

a3update keeps an Arma 3 dedicated server in step with Steam workshop
collections. Its core turns a list of collection ids into the workshop items
they hold. It describes each item as a mod with a normalised folder name. It
republishes every downloaded mod as a lower-cased mirror of links. It links
each mod's signature keys (`.bikey` files) into the server's key directory.
Finally it writes a launcher preset (an HTML mod list). This project models those
routines as pure functions and small methods and proves what they compute.

Modules, one per concern:

- `Wrappers`: `Option` and `Result`.
- `Text`: ASCII lower-casing, character replacement, prefix/suffix tests.
- `Seqs`: duplicate-freedom, first-occurrence deduplication (`Dedup`) and
  filtering out a set (`Absent`).
- `Collections`: `get_collection_workshop_ids`. The remote catalog is a map
  from collection id to its children. A ghost rank that decreases along every
  nested-collection edge stands in for the absent cycle check.
- `Mods`: `workshop_ids_to_mod_array` over a given details response.
- `FileTree`: directory trees as listed on disk, and `FileAt`.
- `Mirror`: `create_mod_link`, with the destination's previous content as an
  argument and filesystem errors as a `Result`.
- `Keys`: `find_bikeys` and `create_key_links`. The key directory is a map
  from file name to entry.
- `HtmlPreset`: `generate`, plus a parser for the generated layout that serves
  as its inverse.

Behaviour of the code worth knowing, which the model keeps:

- Nested collection results are appended without deduplication. An item listed
  directly is skipped when it is already in the list, however it got there. An item
  that comes back from a nested collection's result is appended even when it is
  already listed, so it can appear twice (`Collections.NestedResultsMayRepeat`).
- Mirror names that collide once lower-cased are handled by what the earlier entry
  is. A file whose lower-cased name is already taken, or a directory whose name an
  earlier file took, raises `FileExistsError` (`Mirror.OtherCollisionsFail`). A
  directory whose name an earlier directory took silently replaces it, content and
  all (`Mirror.LaterDirectoryReplacesEarlier`).
- Mirror names are only lower-cased, with no other sanitising.
- A details response announcing more results than it lists makes
  `workshop_ids_to_mod_array` fail with an index error. It does not proceed
  with the subset.

## Model

| member | source | states |
|---|---|---|
| Collections.Resolve | a3update/a3update.py:168-189 | the resolved item list: `Walk` is the loop over the looked-up collections, `Visit` the loop over one collection's children, and `Step` the handling of one child (recursive call, append-if-absent, or skip); its contents are characterised by `Collections.ResolveMembership` in both directions, and without nesting by `Collections.ResolveWithoutNesting` |
| Collections.Visit | a3update/a3update.py:176-187 | the list built so far stays in place as a prefix: a child is only ever appended, never inserted or removed |
| Collections.ResolveMembership | a3update/a3update.py:168-189 | an id is in the resolved list exactly when it is an item child of a requested collection, or (with nesting on) of a collection reachable through nested-collection children |
| Collections.ResolveSound | a3update/a3update.py:176-187 | every id in the result was contributed by some requested collection, directly or through nesting |
| Collections.ResolveComplete | a3update/a3update.py:176-184 | every item under a requested collection, at depth 0 or at any depth when nesting is on, is in the result |
| Collections.ResolveWithoutNesting | a3update/a3update.py:181-184 | when no nested collection is expanded, the result is the first-occurrence deduplication of the item children in request order, and so has no duplicates |
| Collections.VisitFlat | a3update/a3update.py:176-187 | when no nested collection is expanded, walking one collection's children appends each item id not yet listed, once, and skips other file types |
| Collections.ResolveSingle | a3update/a3update.py:180 | resolving one nested id visits that collection's children from an empty list, as the recursive call does |
| Collections.NestedScenario | a3update/a3update.py:178-180 | items of a nested collection are spliced in at the point where the nested child is listed |
| Collections.NestedResultsMayRepeat | a3update/a3update.py:180 | the recursive result is concatenated without a membership check, so an item the parent lists before a nested collection that also holds it comes back twice |
| Collections.Lookup | a3update/a3update.py:170-173 | the looked-up collections are the catalog's entries for known requested ids, each requested known id included |
| Mods.WorkshopIdsToModArray | a3update/a3update.py:152-165 | fails exactly when the announced result count exceeds the listed details; otherwise one descriptor per result, in order, with the item's title, id and folder name |
| Mods.Normalize | a3update/a3update.py:161 | the normalised title keeps the length; each space becomes '_', each ASCII capital becomes its lower-case letter, every other character is kept; no space and no capital remain (idempotent by `Mods.NormalizeIdempotent`) |
| Mods.FolderName | a3update/a3update.py:161 | the folder name is '@' followed by the title with spaces turned into underscores and upper case lowered, with no space and no upper-case letter left |
| Mods.NormalizeIdempotent | a3update/a3update.py:161 | normalising a normalised title changes nothing |
| Mods.FolderNameIgnoresCase | a3update/a3update.py:161 | titles differing only in case get the same folder |
| Mods.FolderNamesCanCollide | a3update/a3update.py:161 | two different titles ("My Mod", "my_mod") map to the same folder "@my_mod" |
| Mirror.CreateModLinkMirrors | a3update/a3update.py:138-149 | for a source directory with no lower-case name collisions, the routine succeeds and builds exactly the mirror: one entry per source entry, lower-cased names, directories recursed, files linked to their source path |
| Mirror.Populate | a3update/a3update.py:144-149 | the loop over the listed entries: when it succeeds the entries it built have distinct names; started on the mirror of the entries already handled it finishes with the whole mirror (`Mirror.PopulateMirrors`) |
| Mirror.PopulateMirrors | a3update/a3update.py:144-149 | the listing loop, started with the mirror of the entries already handled, finishes with the whole mirror |
| Mirror.CreateModLink | a3update/a3update.py:138-149 | success yields a directory; a pre-existing non-directory destination or a file as source is an error |
| Mirror.CreateModLinkDiscardsPrevious | a3update/a3update.py:139-142 | a directory already at the destination has no influence on the result |
| Mirror.RerunLeavesNothingStale | a3update/a3update.py:139-142 | rerunning over the output of an earlier run gives what a run into an empty destination gives: no stale entries survive |
| Mirror.MirroredNamesAreLower | a3update/a3update.py:147-149 | every name in the mirror, at every depth, is lower case |
| Mirror.MirrorLinksEveryFile | a3update/a3update.py:144-149 | every file of the source appears in the mirror at its lower-cased path, linked to its source path |
| Mirror.MirrorLinksOnlyFiles | a3update/a3update.py:144-149 | every link in the mirror is at the lower-cased path of a source file and points to that file |
| Mirror.LaterDirectoryReplacesEarlier | a3update/a3update.py:139-142 | two directories whose names lower-case alike: the later one removes the earlier one's content |
| Mirror.OtherCollisionsFail | a3update/a3update.py:142-149 | a file colliding with a file, or a directory with an earlier file, raises a file-exists error |
| Keys.FindBikeys | a3update/a3update.py:128-135 | the walk for key files, directory by directory top-down, files before subdirectories; what it reports is characterised by `Keys.FindBikeysExact` in both directions |
| Keys.FindBikeysExact | a3update/a3update.py:128-135 | a path below the walked directory is reported exactly when it names a file whose name ends in ".bikey" ignoring case |
| Keys.FindBikeysSound | a3update/a3update.py:131-134 | every reported path extends the walked path and names a key file below it |
| Keys.FindBikeysComplete | a3update/a3update.py:131-134 | every key file at any depth is reported under its full path |
| Keys.KeyNameIgnoresCase | a3update/a3update.py:133 | the extension test does not depend on the case of the file name |
| Keys.LinkKeys | a3update/a3update.py:112-125 | the linked names are the distinct lower-cased key basenames not already in the key directory, in first-occurrence order; existing entries are untouched; each new name links to the first key that produced it; every key's name is present afterwards |
| Keys.InsertNew | a3update/a3update.py:113-123 | inserting names one at a time while skipping taken names adds exactly the new distinct names, keeps old entries, and gives each new name the value of its first occurrence |
| Keys.CreateKeyLinks | a3update/a3update.py:109-125 | the linked names are the distinct lower-cased names of the keys found, in the order found, minus those already in the key directory, so no name is returned twice; each linked name was free before and is the lower-cased name of a key file of the mod; each new name links to the first key found under it; every key file's lower-cased name is in the key directory afterwards; existing entries are unchanged and nothing else is added |
| Keys.FoundKeyName | a3update/a3update.py:110-114 | the link name of a found key is the lower-cased name of a key file of the mod |
| Keys.KeyNameFound | a3update/a3update.py:110-114 | the lower-cased name of every key file of the mod is among the link names |
| HtmlPreset.Document | a3update/html_preset.py:24-134 | the text written for a preset in a given layout, in write order; its inverse is the parser (`HtmlPreset.ParsePresetInverse`) |
| HtmlPreset.Row | a3update/html_preset.py:116-126 | one table row; its cells are stated by `HtmlPreset.RowCells` and it reads back by `HtmlPreset.ParseRowOf` |
| HtmlPreset.Generate | a3update/html_preset.py:24-134 | the preset starts with the XML declaration and ends with the closing html tag |
| HtmlPreset.ParsePresetInverse | a3update/html_preset.py:24-134 | for any layout whose fixed text delimits the inserted fields, a document reads back as a preset exactly when it is that preset's document and the preset's name has no '"', its mods' names no '<' and their ids no '"' |
| HtmlPreset.GenerateReadsBack | a3update/html_preset.py:24-134 | the document written for a safe preset reads back as the same name and mods in the same order |
| HtmlPreset.GenerateNamesPreset | a3update/html_preset.py:26-113 | the preset declares the type "Modpack" in its `arma:Type` metadata, and carries its name in the `arma:PresetName` metadata and inside `<strong>` in the `<h1>` heading |
| HtmlPreset.NameWritten | a3update/html_preset.py:26-101 | for any layout, the name lands in the head between the text ending before it and the text starting after it |
| HtmlPreset.HeadingNameWritten | a3update/html_preset.py:103-113 | for any layout, the name lands in the heading between the text ending before it and the text starting after it |
| HtmlPreset.RowCells | a3update/html_preset.py:116-126 | each row's DisplayName cell holds the mod's name, and both its link target and its link text are the workshop address followed by the mod's id |
| HtmlPreset.GenerateAroundRows | a3update/html_preset.py:112-127 | from the preset name alone it gives a top ending in `<table>` and a bottom starting with `</table>`, such that the output for every list of mods is top, rows, bottom: header and footer depend on the name only, and with no mods the table opens and closes at once |
| HtmlPreset.DocumentAroundRows | a3update/html_preset.py:103-134 | for any layout and name there is one top and one bottom part such that the document for every list of mods is top, rows, bottom, and the document without mods is top and bottom |
| HtmlPreset.QuotedNameIsNotReadBack | a3update/html_preset.py:26-113 | a preset name with a '"' is written unescaped and the document does not read back as that preset |
| HtmlPreset.RowsAppend | a3update/html_preset.py:115-126 | the rows of two mod lists are the rows of the first followed by those of the second |
| HtmlPreset.ParseRowsOf | a3update/html_preset.py:115-126 | the written rows of safe mods read back as the same mods, in order |
| HtmlPreset.ParseRowOf | a3update/html_preset.py:116-126 | one written row of a safe mod reads back as that mod |
| HtmlPreset.MarkupDelimited | a3update/html_preset.py:26-134 | the fixed text around the name, the link and the rows delimits them |
| HtmlPreset.DocumentFrame | a3update/html_preset.py:24-134 | a document starts with its head text and ends with its closing text |
| Text.Lower | a3update/a3update.py:114 | lower-casing keeps the length, turns each ASCII capital into its lower-case letter (code point plus 32) and changes nothing else |
| Text.Replace | a3update/a3update.py:161 | replacing keeps the length, turns every occurrence of the character into the replacement, changes nothing else, and leaves no occurrence when the two differ |
| Text.LowerIdempotent | a3update/a3update.py:147 | lower-casing twice is lower-casing once |
| Seqs.DedupNoDuplicates | a3update/a3update.py:183-184 | first-occurrence deduplication leaves no duplicates |
| Seqs.AbsentMembers | a3update/a3update.py:116 | filtering out taken names keeps exactly the untaken ones |

## Left out

- The command line, the configuration file and its setup wizards, the external
  updater, the Steam Web API calls themselves and progress messages. The remote
  lookups are parameters: a catalog map for collections and a details response for items.
- Responses without the expected envelope: the model assumes the lookup returned its lists.
- Key cleanup (deleting the old key links before a run) and the swifty and
  arma3sync repository builders, which are outside this core.
- The file handle in `generate`: the model gives the text written, in write order.
  The output path and the config lookup of the preset name are not modelled.
- HTML escaping: the source does none, and the model shows its consequence
  (`HtmlPreset.QuotedNameIsNotReadBack`) rather than adding any.
- Collections.ResolveMembership: proved for catalogs that admit a decreasing rank,
  so acyclic ones. With nesting on, a cycle reachable from a requested collection
  through nested-collection children makes the source recurse until the
  interpreter's recursion limit; that divergence is not modelled. With nesting off,
  or with cycles that are not reachable that way, nothing recurses without end, but
  the model still asks for the rank.
- Text.Lower: lower-cases ASCII letters only. Python's `str.lower` also folds
  non-ASCII letters, and this model does not.
- Mirror.CreateModLink: symbolic links in the source tree, and a destination that is a
  link to a directory, are not modelled. Neither is the partial tree the source leaves
  behind when it raises midway; the model returns only the error.
- Keys.CreateKeyLinks: the key directory is a map of names. Whether an existing name
  is a dangling link (Python's `os.path.exists` is false for one, and `os.symlink` would
  then raise) is not modelled.
- Keys.FindBikeysExact: `os.walk` lists directory entries in filesystem order; the model
  takes listing order as given, and does not model entries that vanish during the walk.
