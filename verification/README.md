# Upload validation dispatcher (labrinth `src/validate/mod.rs`)

This project models the part of labrinth that decides whether an uploaded mod
archive is accepted, and whether it may become the project's primary file.

- `validate_file` opens the archive.
- It then walks the fixed registry of loader validators in order: pack, Fabric,
  Forge, legacy Forge.
- A validator *applies* when three things hold:
  - its project types include the upload's project type;
  - one of the declared loaders is among its supported loaders;
  - `game_version_supported` accepts its game-version policy for the declared
    versions.
- The first validator that applies and also accepts the file extension decides
  the outcome with its own `validate`.
- If validators applied but none accepted the extension, the upload fails with an
  `InvalidInputError` that names the extension.
- If no validator applied, the upload passes.

`game_version_supported` checks a policy against the declared versions. The
policies are `All`, `PastDate(d)`, `Range(before, after)` and `Custom(versions)`.
The date policies look up the release date of the first catalog row for each
declared version. A version the catalog lacks never satisfies them.

Files:

- `results.dfy`: module `Results` holds `Option` and `Result`.
- `game_versions.dfy`: module `GameVersions` holds the catalog entry, the policy
  type, `find`, `game_version_supported` and lemmas about them.
- `validation.dfy`: module `Validation` holds the result and error types, the
  validator descriptors, the registry order, the dispatch loop, `validate_file` and
  lemmas about them.

Modelling choices:

- Release timestamps are integers.
- The zip archive is a type parameter `A`. Opening it is an input of type
  `Result<A, string>`: either the archive, or the zip error's description.
- The registry's descriptors and the validators' `validate` functions live in
  modules that are not part of this model. They are therefore inputs, bundled in a
  `ValidatorTable`:
  - `describe` gives each family's extensions, project types, loaders and policy;
  - `validate` gives what each family's validator returns for an archive.
- The generic `Dispatch` runs over any order of families. `ValidateFile` runs it
  over the registry order `Validators`.
- Extension, project-type, loader and version comparisons are exact string
  equality, because the code uses `contains` and `==`. The code does not
  lower-case extensions, so `"JAR"` and `"jar"` are different extensions here.

## Model

| member | source | states |
|---|---|---|
| GameVersions.Any | src/validate/mod.rs:74-76 | `any` holds exactly when some element of the sequence satisfies the predicate |
| GameVersions.Find | src/validate/mod.rs:109-111 | `find` returns `None` exactly when no catalog row has the label; otherwise it returns the first row with that label |
| GameVersions.GameVersionSupported | src/validate/mod.rs:101-126 | `All` always holds. `PastDate(d)` holds iff some declared version's first catalog row is dated after `d`. `Range(b, a)` holds iff such a date lies strictly between `b` and `a`. `Custom(vs)` holds iff some element of `vs` is declared |
| GameVersions.AllAdmitsEverything | src/validate/mod.rs:107 | `All` is satisfied whatever is declared and whatever the catalog holds |
| GameVersions.CustomIgnoresCatalog | src/validate/mod.rs:122-124 | `Custom` gives the same answer under any two catalogs |
| GameVersions.CustomIsOrderIndependent | src/validate/mod.rs:122-124 | `Custom` depends only on which versions are declared, not on their order or repetition |
| GameVersions.NothingDeclaredOnlyAll | src/validate/mod.rs:106-125 | with no declared versions, only `All` is satisfied |
| GameVersions.DateSupportByAdmits | src/validate/mod.rs:108-121 | a date policy holds exactly when one declared version satisfies it on its own |
| GameVersions.UnlistedVersionNeverContributes | src/validate/mod.rs:108-121 | removing a declared version absent from the catalog does not change a date policy's answer |
| GameVersions.UnlistedVersionsFailClosed | src/validate/mod.rs:108-121 | a date policy fails when none of the declared versions is in the catalog |
| GameVersions.OnlyFirstEntriesMatter | src/validate/mod.rs:108-121 | two catalogs that give the same `find` result for every declared version give the same answer for every policy |
| GameVersions.FindIgnoresShadowedRows | src/validate/mod.rs:109-111 | appending rows for labels the catalog already lists does not change what `find` returns |
| GameVersions.ShadowedRowsIgnored | src/validate/mod.rs:109-111 | appending duplicate rows for labels the catalog already lists changes no policy's answer |
| GameVersions.PastDateAntitone | src/validate/mod.rs:108-114 | an earlier `PastDate` cutoff accepts everything a later cutoff accepts |
| GameVersions.RangeWithinPastDate | src/validate/mod.rs:108-121 | whatever `Range(b, a)` accepts, `PastDate(b)` also accepts |
| GameVersions.EmptyRangeAdmitsNothing | src/validate/mod.rs:115-121 | both `Range` bounds are exclusive, so a range with no integer strictly inside accepts nothing |
| Validation.InvalidExtensionMessage | src/validate/mod.rs:91-95 | the rejection message names the extension, and the extension can be read back out of the message |
| Validation.InvalidExtensionMessageInjective | src/validate/mod.rs:91-95 | different rejected extensions give different messages |
| Validation.Applies | src/validate/mod.rs:73-81 | a validator applies iff it lists the project type, shares a loader with the upload, and its game-version policy holds |
| Validation.Dispatch | src/validate/mod.rs:71-98 | from any loop position, the first later validator that applies and accepts the extension decides through its `validate`. If none does, the result is the invalid-extension error when the flag is set or a later validator applies, and `Pass` otherwise |
| Validation.ValidateFile | src/validate/mod.rs:60-99 | an archive that fails to open returns `ZipError`. Otherwise the first registry validator that applies and accepts the extension decides. If validators applied but none accepted the extension, the result is the invalid-extension error. If none applied, the result is `Pass` |
| Validation.OpenFailureConsultsNoValidator | src/validate/mod.rs:68-69 | when the archive fails to open, the result is that zip error whatever the validators' descriptors or `validate` functions are |
| Validation.LaterValidatorsNeverConsulted | src/validate/mod.rs:72-84 | once a validator decides, replacing every validator after it changes nothing; the result is its `validate` output |
| Validation.NoLoadersPass | src/validate/mod.rs:71-98 | with an empty loader list, an archive that opens passes |
| Validation.DispatchOutcomes | src/validate/mod.rs:71-98 | every loop outcome is one of three things: a deciding validator's `validate` output unchanged, the invalid-extension error after some validator applied, or `Pass` when none applied |
| Validation.ValidateFileOutcomes | src/validate/mod.rs:60-99 | the same three-way split for `validate_file` on an archive that opens |
| Validation.PackValidatorWinsTies | src/validate/mod.rs:52-57 | the registry order breaks ties: when the pack validator decides, its `validate` output is the result whatever the later validators would say |

## Left out

- `src/routes/auth.rs`: the HTTP handlers, database transactions, GitHub OAuth calls and environment reads are I/O plumbing with no self-contained logic.
- Zip decoding (`zip::ZipArchive::new`) is a foreign library. It is modelled only as its success-or-error result.
- The `fabric`, `forge` and `pack` validator modules are not part of this model. Their descriptors and `validate` bodies are inputs (`ValidatorTable`). So the model does not say which extensions, project types, loaders or date cutoffs each family uses. It also does not say when a validator produces `IoError`, `SerDeError` or `Warning`.
- `validate` takes the archive as `&mut`. Any state it changes inside the archive is not modelled, because only one `validate` call is made per upload.
- `chrono::DateTime` is replaced by integer timestamps, so sub-second precision and time zones are not modelled.
- The `thiserror` display strings of `ValidationError` are not modelled. The lower-level zip, I/O and JSON errors are carried only as descriptions.
- Idempotence (the same inputs give the same result) needs no lemma: every member is a pure function.
