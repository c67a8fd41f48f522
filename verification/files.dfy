/**
 * File names and settings: `_append_extension`, the name a save file gets,
 * and the default that `_get_settings` fills in for a missing `filename`.
 * The files themselves (creating, renaming, deleting, listing) are not
 * part of this model.
 */
module Files {
  import opened Text

  /** The extension of every save file. */
  const JsonExtension: string := ".json"

  /** The save file used until another one is chosen (`DEFAULT_SAVE_FILE_NAME`). */
  const DefaultSaveFileName: string := "todos.json"

  /**
   * `_append_extension(filename, extension)`: `filename` itself when its
   * lower-cased form already ends with `extension`, otherwise `filename`
   * followed by `extension`.
   */
  function AppendExtension(filename: string, extension: string): (r: string)
    ensures |filename| <= |r| && r[..|filename|] == filename
    ensures EndsWith(Lower(filename), extension) ==> r == filename
    ensures !EndsWith(Lower(filename), extension) ==> r == filename + extension
  {
    if EndsWith(Lower(filename), extension) then filename else filename + extension
  }

  /**
   * For a lower-case extension the result always carries the extension, and
   * normalising a second time changes nothing.
   */
  lemma AppendExtensionIdempotent(filename: string, extension: string)
    requires Lower(extension) == extension
    ensures EndsWith(Lower(AppendExtension(filename, extension)), extension)
    ensures AppendExtension(AppendExtension(filename, extension), extension) == AppendExtension(filename, extension)
  {
    if !EndsWith(Lower(filename), extension) {
      LowerAppend(filename, extension);
      var r := filename + extension;
      assert Lower(r)[|Lower(r)| - |extension|..] == extension;
    }
  }

  /** The file `add-file`, `set-file` and `del-file` address for a user-given name. */
  function SaveFileName(name: string): (r: string)
    ensures EndsWith(Lower(r), JsonExtension)
    ensures |name| <= |r| && r[..|name|] == name
  {
    assert Lower(JsonExtension) == JsonExtension;
    AppendExtensionIdempotent(name, JsonExtension);
    AppendExtension(name, JsonExtension)
  }

  /** A save file name is its own save file name: `set-file notes.json` and `set-file notes` agree. */
  lemma SaveFileNameIdempotent(name: string)
    ensures SaveFileName(SaveFileName(name)) == SaveFileName(name)
  {
    assert Lower(JsonExtension) == JsonExtension;
    AppendExtensionIdempotent(name, JsonExtension);
  }

  /** `rename_file`'s new file name as written: the extension is passed without its dot. */
  function RenameTargetAsWritten(newName: string): (r: string)
    ensures |newName| <= |r| && r[..|newName|] == newName
  {
    AppendExtension(newName, "json")
  }

  /**
   * `rename-file todos notes` renames to `notesjson`, while `set-file notes`
   * and every other command look for `notes.json`.
   */
  lemma RenameTargetLosesDot()
    ensures RenameTargetAsWritten("notes") == "notesjson"
    ensures SaveFileName("notes") == "notes.json"
  {
    var notes := "notes";
    assert Lower(notes) == notes;
    assert !EndsWith(notes, "json") by {
      assert notes[|notes| - 4..][0] == 'o';
    }
    assert !EndsWith(notes, JsonExtension) by {
      assert notes[|notes| - 5..][0] == 'n';
    }
  }

  /**
   * `_get_settings` on a settings document that was read: a missing
   * `filename` entry is filled with the default; every other entry, and a
   * present `filename`, is kept.
   */
  function WithDefaultFilename(settings: map<string, string>): (r: map<string, string>)
    ensures "filename" in r
    ensures r.Keys == settings.Keys + {"filename"}
    ensures forall key :: key in settings ==> r[key] == settings[key]
    ensures "filename" !in settings ==> r["filename"] == DefaultSaveFileName
  {
    if "filename" !in settings then settings["filename" := DefaultSaveFileName] else settings
  }

  /** Filling in the default a second time changes nothing. */
  lemma WithDefaultFilenameIdempotent(settings: map<string, string>)
    ensures WithDefaultFilename(WithDefaultFilename(settings)) == WithDefaultFilename(settings)
  {
  }
}
