/** Worked cases of the title derivation and the image filter. Names are
    written as the concatenation of their parts, the form the general lemmas
    speak of. */
module Examples {
  import opened Text
  import opened Title
  import opened Scanner

  /** "my-photo_01.jpg" is titled "my photo 01". */
  lemma TypicalTitle()
    ensures TitleFromFilename("my" + "-" + "photo" + "_" + "01" + "." + "jpg") == "my" + " " + "photo" + " " + "01"
  {
    assert IsWord("my") && IsWord("photo") && IsWord("01");
    ThreeWordTitle("my", "-", "photo", "_", "01", "jpg");
  }

  /** "-_-.jpg", all separators, is titled "". */
  lemma SeparatorsOnlyTitle()
    ensures TitleFromFilename("-_-.jpg") == ""
  {
    assert "-_-" + "." + "jpg" == "-_-.jpg";
    StripSingleExtension("-_-", "jpg");
    assert "-_-" + [] == "-_-";
    WordsAfterLeadingSeparators("-_-", []);
    assert Words([]) == [];
  }

  /** Only the last extension goes: "v1.2-final.jpg" is titled "v1.2 final". */
  lemma DottedTitle()
    ensures TitleFromFilename("v1.2" + "-" + "final" + "." + "jpg") == "v1.2" + " " + "final"
  {
    assert IsWord("v1.2") && IsWord("final");
    TwoWordTitle("v1.2", "-", "final", "jpg");
  }

  /** The derivation is not idempotent: deriving a title again from
      "v1.2 final" treats ".2 final" as an extension. */
  lemma TitleNotIdempotent()
    ensures TitleFromFilename("v1.2 final") == "v1"
  {
    assert "v1" + "." + "2 final" == "v1.2 final";
    StripSingleExtension("v1", "2 final");
    assert IsWord("v1");
    WordsOfWord("v1");
  }

  /** Extensions match regardless of case. */
  lemma UpperCaseExtensionAccepted()
    ensures IsImageFile("a" + ".JPG")
  {
    assert AsciiLower(".JPG") in ImageExtensions by {
      LowerCaseJpg();
    }
    ImageFileByLastExtension("a", ".JPG");
  }

  lemma LowerCaseJpg()
    ensures AsciiLower(".JPG") == ".jpg"
  {
    var r := AsciiLower(".JPG");
    assert r[0] == '.' && r[1] == 'j' && r[2] == 'p' && r[3] == 'g';
  }

  lemma MixedCaseExtensionAccepted()
    ensures IsImageFile("c" + ".Png")
  {
    assert AsciiLower(".Png") in ImageExtensions by {
      LowerCasePng();
    }
    ImageFileByLastExtension("c", ".Png");
  }

  lemma LowerCasePng()
    ensures AsciiLower(".Png") == ".png"
  {
    var r := AsciiLower(".Png");
    assert r[0] == '.' && r[1] == 'p' && r[2] == 'n' && r[3] == 'g';
  }

  lemma OtherExtensionRejected()
    ensures !IsImageFile("notes" + ".txt")
  {
    assert AsciiLower(".txt") !in ImageExtensions by {
      NoUpperCaseKept(".txt");
    }
    ImageFileByLastExtension("notes", ".txt");
  }

  /** Only the last extension counts. */
  lemma InnerExtensionIgnored()
    ensures !IsImageFile("archive.jpg" + ".zip")
  {
    assert AsciiLower(".zip") !in ImageExtensions by {
      NoUpperCaseKept(".zip");
    }
    ImageFileByLastExtension("archive.jpg", ".zip");
  }

  lemma NoUpperCaseKept(e: string)
    requires forall i | 0 <= i < |e| :: !('A' <= e[i] <= 'Z')
    ensures AsciiLower(e) == e
  {
  }

  /** A dotfile named like an extension has none. */
  lemma DotfileRejected()
    ensures !IsImageFile("." + "jpg")
  {
    DotfileIsNotImage("jpg");
  }
}
