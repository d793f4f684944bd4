/** The failures of the editor code: each exception it can raise and each early return. */
module Errors {

  datatype Error =
    /** `Assert.IsTrue(isValidPrefab, …)`: the asset lies under no configured prefab directory. */
    | NotUnderPrefabDirectory(assetPath: string)
    /** `String.Replace` with an empty value to replace throws ArgumentException. */
    | EmptyReplacePattern
    /** The binding-cache file holds text the JSON reader rejects. */
    | CorruptCache
    /** `Directory.GetFiles` on a configured code directory that does not exist. */
    | DirectoryNotFound(directory: string)
    /** `File.ReadAllText` on a path that does not exist. */
    | FileNotFound(path: string)
    /** No script contains the hash; the editor copies the marker to the clipboard and returns. */
    | ScriptNotFound
    /** `GenerateCode` on a bind file whose extension is not ".ts" (NotImplementedException). */
    | UnsupportedBindFile(extension: string)
    /** A binding node whose component reference is null (NullReferenceException). */
    | MissingComponent(index: nat)
}
