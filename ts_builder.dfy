/** The two path helpers of the generator's driver: the output folder gets a trailing
    separator, and generated files get an ending chosen by a setting. */
module TsBuilder {

  predicate EndsWithSeparator(folder: string) {
    |folder| > 0 && (folder[|folder| - 1] == '/' || folder[|folder| - 1] == '\\')
  }

  /** `normFolder`: an empty folder stays empty; a folder that does not already end in
      `/` or `\` gets a `/` appended. */
  function NormFolder(folder: string): (r: string)
    ensures folder == "" ==> r == ""
    ensures folder != "" ==> EndsWithSeparator(r)
    ensures folder <= r && |r| <= |folder| + 1
    ensures |r| == |folder| + 1 ==> r == folder + "/"
    ensures EndsWithSeparator(folder) ==> r == folder
  {
    if folder == "" then ""
    else if EndsWithSeparator(folder) then folder
    else folder + "/"
  }

  /** Normalising twice normalises once. */
  lemma NormFolderIdempotent(folder: string)
    ensures NormFolder(NormFolder(folder)) == NormFolder(folder)
  {
  }

  /** `getFilenameEnding`: `.generated.ts` when generated files are suffixed, else `.ts`;
      either way the name ends in `.ts`. */
  function FilenameEnding(suffixGeneratedToFilenames: bool): (r: string)
    ensures |r| >= 3 && r[|r| - 3..] == ".ts"
    ensures suffixGeneratedToFilenames ==> r == ".generated.ts"
    ensures !suffixGeneratedToFilenames ==> r == ".ts"
  {
    var prefix := if suffixGeneratedToFilenames then ".generated" else "";
    assert (prefix + ".ts")[|prefix|..] == ".ts";
    prefix + ".ts"
  }

  /** The suffixed ending is the plain one with `.generated` put in front, so the two
      never coincide. */
  lemma GeneratedEndingExtendsPlain()
    ensures FilenameEnding(true) == ".generated" + FilenameEnding(false)
    ensures FilenameEnding(true) != FilenameEnding(false)
  {
    assert |FilenameEnding(true)| != |FilenameEnding(false)|;
  }
}
