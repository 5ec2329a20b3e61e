/** The upload-validation dispatcher: walks the fixed, ordered registry of
    loader validators, lets the first one that applies to the upload and
    accepts its file extension decide, rejects an extension that only
    otherwise-matching validators saw, and passes uploads no validator
    applies to. */
module Validation {
  import opened Results
  import opened GameVersions

  /** Whether a file may be marked as the project's primary file. */
  datatype ValidationResult =
    | Pass
    | Warning(reason: string)

  /** The failures a validation reports. The lower-level causes (zip, I/O,
      JSON) are carried as their descriptions. */
  datatype ValidationError =
    | ZipError(zip: string)
    | IoError(io: string)
    | SerDeError(json: string)
    | InvalidInputError(message: string)

  type Outcome = Result<ValidationResult, ValidationError>

  /** The loader families that have a validator. */
  datatype Family = Pack | Fabric | Forge | LegacyForge

  /** What a validator advertises: accepted file extensions, project types,
      loaders, and its supported game-version policy. */
  datatype Descriptor = Descriptor(
    fileExtensions: seq<string>,
    projectTypes: seq<string>,
    supportedLoaders: seq<string>,
    supportedGameVersions: SupportedGameVersions)

  /** The validator implementations, one per family, over an archive type `A`:
      what each advertises, and what its `validate` returns for an opened
      archive. */
  datatype ValidatorTable<!A> = ValidatorTable(
    describe: Family -> Descriptor,
    validate: (Family, A) -> Outcome)

  /** What the upload declares about the file being validated. */
  datatype Upload = Upload(
    fileExtension: string,
    projectType: string,
    loaders: seq<string>,
    gameVersions: seq<string>)

  /** The registry order of `VALIDATORS`. */
  const Validators: seq<Family> := [Pack, Fabric, Forge, LegacyForge]

  const MessagePrefix: string := "File extension "
  const MessageSuffix: string := " is invalid for input file"

  /** The message of the `InvalidInputError` that rejects `extension`; the
      extension can be read back out of it. */
  function InvalidExtensionMessage(extension: string): (message: string)
    ensures ExtensionInMessage(message) == Some(extension)
  {
    var message := MessagePrefix + extension + MessageSuffix;
    assert message[..|MessagePrefix|] == MessagePrefix;
    assert message[|message| - |MessageSuffix|..] == MessageSuffix;
    assert message[|MessagePrefix|..|message| - |MessageSuffix|] == extension;
    message
  }

  /** The extension an invalid-extension message names, if it is one. */
  function ExtensionInMessage(message: string): Option<string>
  {
    if |message| >= |MessagePrefix| + |MessageSuffix|
       && message[..|MessagePrefix|] == MessagePrefix
       && message[|message| - |MessageSuffix|..] == MessageSuffix
    then Some(message[|MessagePrefix|..|message| - |MessageSuffix|])
    else None
  }

  /** Distinct rejected extensions give distinct messages. */
  lemma InvalidExtensionMessageInjective(e1: string, e2: string)
    requires e1 != e2
    ensures InvalidExtensionMessage(e1) != InvalidExtensionMessage(e2)
  {
    assert ExtensionInMessage(InvalidExtensionMessage(e1)) == Some(e1);
  }

  /** The three preconditions of the dispatch loop: the project type is one
      the validator handles, some declared loader is one it supports, and its
      game-version policy admits the declared versions. */
  function Applies(d: Descriptor, upload: Upload, catalog: seq<CatalogEntry>): (b: bool)
    ensures b <==> && upload.projectType in d.projectTypes
                   && (exists l :: l in upload.loaders && l in d.supportedLoaders)
                   && GameVersionSupported(upload.gameVersions, catalog, d.supportedGameVersions)
  {
    && upload.projectType in d.projectTypes
    && Any(upload.loaders, (l: string) => l in d.supportedLoaders)
    && GameVersionSupported(upload.gameVersions, catalog, d.supportedGameVersions)
  }

  /** The validator applies and also accepts the upload's file extension,
      so it decides the outcome if nothing earlier does. */
  ghost predicate Decides<A>(table: ValidatorTable<A>, f: Family, upload: Upload, catalog: seq<CatalogEntry>)
  {
    Applies(table.describe(f), upload, catalog) && upload.fileExtension in table.describe(f).fileExtensions
  }

  /** `order[k]` is the first validator in `order` that decides. */
  ghost predicate FirstDecider<A>(order: seq<Family>, table: ValidatorTable<A>, upload: Upload,
                                  catalog: seq<CatalogEntry>, k: int)
  {
    && 0 <= k < |order|
    && Decides(table, order[k], upload, catalog)
    && forall j :: 0 <= j < k ==> !Decides(table, order[j], upload, catalog)
  }

  /** The dispatch loop from position `i` on, with `visited` the flag the
      loop has accumulated so far. */
  function Dispatch<A>(order: seq<Family>, table: ValidatorTable<A>, upload: Upload,
                       catalog: seq<CatalogEntry>, zip: A, i: nat, visited: bool): (r: Outcome)
    requires i <= |order|
    decreases |order| - i
    ensures forall k :: && i <= k < |order|
                        && Decides(table, order[k], upload, catalog)
                        && (forall j :: i <= j < k ==> !Decides(table, order[j], upload, catalog))
                        ==> r == table.validate(order[k], zip)
    ensures (forall k :: i <= k < |order| ==> !Decides(table, order[k], upload, catalog)) ==>
              r == if visited || exists k :: i <= k < |order| && Applies(table.describe(order[k]), upload, catalog)
                   then Err(InvalidInputError(InvalidExtensionMessage(upload.fileExtension)))
                   else Ok(Pass)
  {
    if i == |order| then
      if visited then Err(InvalidInputError(InvalidExtensionMessage(upload.fileExtension)))
      else Ok(Pass)
    else
      var d := table.describe(order[i]);
      if Applies(d, upload, catalog) then
        if upload.fileExtension in d.fileExtensions then table.validate(order[i], zip)
        else Dispatch(order, table, upload, catalog, zip, i + 1, true)
      else Dispatch(order, table, upload, catalog, zip, i + 1, visited)
  }

  /** `validate_file`: open the archive, then run the dispatch loop over the
      registry. */
  function ValidateFile<A>(archive: Result<A, string>, upload: Upload, catalog: seq<CatalogEntry>,
                           table: ValidatorTable<A>): (r: Outcome)
    ensures archive.Err? ==> r == Err(ZipError(archive.error))
    ensures archive.Ok? ==>
              forall k :: FirstDecider(Validators, table, upload, catalog, k) ==>
                r == table.validate(Validators[k], archive.value)
    ensures archive.Ok? && (forall f :: f in Validators ==> !Applies(table.describe(f), upload, catalog)) ==>
              r == Ok(Pass)
    ensures archive.Ok? && (forall f :: f in Validators ==> !Decides(table, f, upload, catalog))
            && (exists f :: f in Validators && Applies(table.describe(f), upload, catalog)) ==>
              r == Err(InvalidInputError(InvalidExtensionMessage(upload.fileExtension)))
  {
    match archive
    case Err(e) => Err(ZipError(e))
    case Ok(zip) => Dispatch(Validators, table, upload, catalog, zip, 0, false)
  }

  /** An archive that does not open fails the call with its zip error before
      any validator is looked at: the validator table cannot influence it. */
  lemma OpenFailureConsultsNoValidator<A>(archive: Result<A, string>, upload: Upload,
                                          catalog: seq<CatalogEntry>,
                                          table1: ValidatorTable<A>, table2: ValidatorTable<A>)
    requires archive.Err?
    ensures ValidateFile(archive, upload, catalog, table1) == Err(ZipError(archive.error))
    ensures ValidateFile(archive, upload, catalog, table1) == ValidateFile(archive, upload, catalog, table2)
  {
  }

  /** Once a validator decides, the validators after it are never consulted:
      replacing everything after it by anything gives the same outcome. */
  lemma {:induction false} LaterValidatorsNeverConsulted<A>(order: seq<Family>, rest: seq<Family>,
                                                            table: ValidatorTable<A>, upload: Upload,
                                                            catalog: seq<CatalogEntry>, zip: A, k: nat)
    requires FirstDecider(order, table, upload, catalog, k)
    ensures Dispatch(order, table, upload, catalog, zip, 0, false)
            == Dispatch(order[..k + 1] + rest, table, upload, catalog, zip, 0, false)
            == table.validate(order[k], zip)
  {
    var other := order[..k + 1] + rest;
    assert forall j :: 0 <= j <= k ==> other[j] == order[j];
    assert FirstDecider(other, table, upload, catalog, k);
  }

  /** With no declared loader no validator applies, so an archive that opens
      passes whatever else the upload declares. */
  lemma NoLoadersPass<A>(archive: Result<A, string>, upload: Upload, catalog: seq<CatalogEntry>,
                         table: ValidatorTable<A>)
    requires archive.Ok? && upload.loaders == []
    ensures ValidateFile(archive, upload, catalog, table) == Ok(Pass)
  {
  }

  /** Every outcome of the dispatch loop comes from one of three places: the
      `validate` of a validator that decides, unchanged (a warning is never
      turned into an error nor an error into a warning); the invalid-extension
      error when some validator applied but none accepted the extension; or
      `Pass` when no validator applied at all. */
  lemma {:induction false} DispatchOutcomes<A>(order: seq<Family>, table: ValidatorTable<A>, upload: Upload,
                                               catalog: seq<CatalogEntry>, zip: A, i: nat, visited: bool)
    requires i <= |order|
    decreases |order| - i
    ensures var r := Dispatch(order, table, upload, catalog, zip, i, visited);
            || (exists k :: i <= k < |order| && Decides(table, order[k], upload, catalog)
                             && r == table.validate(order[k], zip))
            || ((visited || exists k :: i <= k < |order| && Applies(table.describe(order[k]), upload, catalog))
                && r == Err(InvalidInputError(InvalidExtensionMessage(upload.fileExtension))))
            || (!visited && (forall k :: i <= k < |order| ==> !Applies(table.describe(order[k]), upload, catalog))
                && r == Ok(Pass))
  {
    var r := Dispatch(order, table, upload, catalog, zip, i, visited);
    if i < |order| {
      var d := table.describe(order[i]);
      if Decides(table, order[i], upload, catalog) {
        assert r == table.validate(order[i], zip);
      } else {
        var seen := visited || Applies(d, upload, catalog);
        assert r == Dispatch(order, table, upload, catalog, zip, i + 1, seen);
        DispatchOutcomes(order, table, upload, catalog, zip, i + 1, seen);
        if Applies(d, upload, catalog) {
          assert exists k :: i <= k < |order| && Applies(table.describe(order[k]), upload, catalog);
        }
      }
    }
  }

  /** `validate_file` returns the `validate` result of a deciding validator,
      the invalid-extension error when some validator applied, or `Pass` when
      none did: the three cases of the loop's exit. */
  lemma ValidateFileOutcomes<A>(archive: Result<A, string>, upload: Upload, catalog: seq<CatalogEntry>,
                                table: ValidatorTable<A>)
    requires archive.Ok?
    ensures var r := ValidateFile(archive, upload, catalog, table);
            || (exists f :: f in Validators && Decides(table, f, upload, catalog)
                             && r == table.validate(f, archive.value))
            || ((exists f :: f in Validators && Applies(table.describe(f), upload, catalog))
                && r == Err(InvalidInputError(InvalidExtensionMessage(upload.fileExtension))))
            || ((forall f :: f in Validators ==> !Applies(table.describe(f), upload, catalog))
                && r == Ok(Pass))
  {
    DispatchOutcomes(Validators, table, upload, catalog, archive.value, 0, false);
  }

  /** Registry order breaks ties: when the pack validator decides, it decides
      the outcome whatever Fabric, Forge or legacy Forge would say. */
  lemma PackValidatorWinsTies<A>(archive: Result<A, string>, upload: Upload, catalog: seq<CatalogEntry>,
                                 table: ValidatorTable<A>)
    requires archive.Ok? && Decides(table, Pack, upload, catalog)
    ensures ValidateFile(archive, upload, catalog, table) == table.validate(Pack, archive.value)
  {
    assert FirstDecider(Validators, table, upload, catalog, 0);
  }
}
