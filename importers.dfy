/**
 * The import pipeline of saffron-data (`importers/mod.rs`): `import` runs
 * a format's `parse` and then its `convert`; `auto_import` picks the format
 * by `can_import`, Insomnia v4 being the only one.
 */
module Importers {
  import opened Wrappers
  import opened Strings
  import opened JsonSpec
  import opened Imported
  import opened Insomnia

  /** The workspace ids of the export a text parses to. */
  function WorkspaceIds(content: string): set<string>
    requires ParseExport(content).Success?
  {
    WorkspaceMap(ParseExport(content).value.resources).Keys
  }

  /**
   * `ImportFormat::import` for Insomnia: `convert(parse(content))`, a parse
   * error handed on unchanged. `order` is the iteration order of the
   * workspaces map.
   */
  function Import(content: string, order: seq<string>): (r: Result<seq<ImportedCollection>, ImportError>)
    requires ParseExport(content).Success? ==> Enumerates(order, WorkspaceIds(content))
    ensures ParseExport(content).Failure? ==> r == Failure(ParseExport(content).error)
    ensures ParseExport(content).Success? ==> r == Success(Converted(ParseExport(content).value, order))
    ensures r.Success? ==> ParseText(content).Success? && ParseText(content).value.Object?
    ensures r.Success? ==> |r.value| == |WorkspaceIds(content)|
  {
    ExportOutcome(content);
    var source :- ParseExport(content);
    OnePerWorkspace(source, order);
    Success(Converted(source, order))
  }

  const UnknownFormat := "Unknown format. Supported: Insomnia v4"

  /** `auto_import`: Insomnia when the text looks like an Insomnia export, otherwise an unknown format. */
  function AutoImport(content: string, order: seq<string>): (r: Result<seq<ImportedCollection>, ImportError>)
    requires ParseExport(content).Success? ==> Enumerates(order, WorkspaceIds(content))
    ensures !CanImport(content) ==> r == Failure(InvalidFormat(UnknownFormat))
    ensures CanImport(content) ==> r == Import(content, order)
    ensures r.Success? ==> Contains(content, "\"resources\"") && ParseText(content).Success?
  {
    if CanImport(content) then Import(content, order) else Failure(InvalidFormat(UnknownFormat))
  }
}
