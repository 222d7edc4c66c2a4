/**
 Mod descriptors (`workshop_ids_to_mod_array`): one record per workshop item
 returned by the item-details lookup, carrying its title, the normalised folder
 name it is published under, and its workshop id.

 The lookup itself is a remote call; the model takes its response as input:
 the `resultcount` it announces and the list of details records.
 */
module Mods {
  import opened Wrappers
  import opened Text
  import Collections

  type FileId = Collections.FileId

  datatype FileDetails = FileDetails(title: string, publishedFileId: FileId)

  datatype DetailsResponse = DetailsResponse(resultCount: nat, details: seq<FileDetails>)

  datatype ModDescriptor = ModDescriptor(name: string, folderName: string, publishedFileId: FileId)

  /** Raised by the source when `resultcount` exceeds the list it indexes into. */
  datatype LookupError = IndexOutOfRange

  const FolderMarker: char := '@'

  /** `title.lower().replace(' ', '_')`. */
  function Normalize(title: string): (r: string)
    ensures |r| == |title|
    ensures ' ' !in r
    ensures NoUpper(r)
    ensures forall i :: 0 <= i < |title| && title[i] != ' ' && !IsUpper(title[i]) ==> r[i] == title[i]
    ensures forall i :: 0 <= i < |title| && title[i] == ' ' ==> r[i] == '_'
    ensures forall i :: 0 <= i < |title| && IsUpper(title[i]) ==> r[i] as int == title[i] as int + 32
  {
    Replace(Lower(title), ' ', '_')
  }

  /** The published folder name: the marker character followed by the normalised title. */
  function FolderName(title: string): (r: string)
    ensures |r| == |title| + 1
    ensures r[0] == FolderMarker
    ensures ' ' !in r && NoUpper(r)
    ensures r[1..] == Normalize(title)
  {
    [FolderMarker] + Normalize(title)
  }

  /** Normalising an already normalised name changes nothing. */
  lemma NormalizeIdempotent(title: string)
    ensures Normalize(Normalize(title)) == Normalize(title)
  {
    var n := Normalize(title);
    assert Lower(n) == n by {
      LowerOfNoUpper(n);
    }
  }

  /** Folder names ignore the case of the title. */
  lemma FolderNameIgnoresCase(title: string)
    ensures FolderName(Lower(title)) == FolderName(title)
  {
    LowerIdempotent(title);
  }

  /**
   Different titles can share a folder: a space and an underscore, and upper and
   lower case, are not told apart.
   */
  lemma FolderNamesCanCollide()
    ensures "My Mod" != "my_mod"
    ensures FolderName("My Mod") == FolderName("my_mod") == "@my_mod"
  {
    assert "My Mod"[0] != "my_mod"[0];
    NormalizeMyMod();
    NormalizeMy_mod();
  }

  lemma NormalizeMyMod()
    ensures Normalize("My Mod") == "my_mod"
  {
    var n := Normalize("My Mod");
    assert n[0] == 'm' && n[1] == 'y' && n[2] == '_';
    assert n[3] == 'm' && n[4] == 'o' && n[5] == 'd';
  }

  lemma NormalizeMy_mod()
    ensures Normalize("my_mod") == "my_mod"
  {
    var n := Normalize("my_mod");
    assert n[0] == 'm' && n[1] == 'y' && n[2] == '_';
    assert n[3] == 'm' && n[4] == 'o' && n[5] == 'd';
  }

  /** The descriptor built for one details record. */
  function Describe(d: FileDetails): ModDescriptor {
    ModDescriptor(d.title, FolderName(d.title), d.publishedFileId)
  }

  /**
   `workshop_ids_to_mod_array`, given the details response: exactly
   `resultCount` descriptors, in response order, or the index error the source
   raises when the response announces more results than it lists.
   */
  method WorkshopIdsToModArray(resp: DetailsResponse) returns (r: Result<seq<ModDescriptor>, LookupError>)
    ensures r.Err? <==> resp.resultCount > |resp.details|
    ensures r.Ok? ==> |r.value| == resp.resultCount
    ensures r.Ok? ==> forall i :: 0 <= i < |r.value| ==>
              && r.value[i].name == resp.details[i].title
              && r.value[i].publishedFileId == resp.details[i].publishedFileId
              && r.value[i].folderName == FolderName(resp.details[i].title)
  {
    var mods: seq<ModDescriptor> := [];
    var i := 0;
    while i < resp.resultCount
      invariant 0 <= i <= resp.resultCount
      invariant i <= |resp.details|
      invariant |mods| == i
      invariant forall j :: 0 <= j < i ==> mods[j] == Describe(resp.details[j])
    {
      if i >= |resp.details| {
        return Err(IndexOutOfRange);
      }
      mods := mods + [Describe(resp.details[i])];
      i := i + 1;
    }
    return Ok(mods);
  }
}
