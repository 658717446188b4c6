/** The per-document record: `Entities.FileData`. */
module Entities {
  import opened JavaLang

  /** One document: its text (raw, then canonical), its shingles and its
      MinHash signature. The last two are null until a pass sets them. */
  class FileData {
    var text: string
    var shingles: Option<set<string>>
    var minHash: array?<int32>

    constructor (text: string)
      ensures this.text == text
      ensures shingles == None && minHash == null
    {
      this.text := text;
      shingles := None;
      minHash := null;
    }

    function GetText(): string
      reads this
    {
      text
    }

    function GetShingles(): Option<set<string>>
      reads this
    {
      shingles
    }

    function GetMinHash(): array?<int32>
      reads this
    {
      minHash
    }

    method SetText(text: string)
      modifies this`text
      ensures GetText() == text
      ensures GetShingles() == old(GetShingles()) && GetMinHash() == old(GetMinHash())
    {
      this.text := text;
    }

    method SetShingles(shingles: Option<set<string>>)
      modifies this`shingles
      ensures GetShingles() == shingles
      ensures GetText() == old(GetText()) && GetMinHash() == old(GetMinHash())
    {
      this.shingles := shingles;
    }

    method SetMinHash(minHash: array?<int32>)
      modifies this`minHash
      ensures GetMinHash() == minHash
      ensures GetText() == old(GetText()) && GetShingles() == old(GetShingles())
    {
      this.minHash := minHash;
    }
  }
}
