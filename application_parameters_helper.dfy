/** Parsing and checking the launch parameters
    (Archiver.App/ApplicationParametersHelper.cs). The platform's invalid
    file-name and path characters (`Path.GetInvalidFileNameChars`,
    `Path.GetInvalidPathChars`) are parameters. */
module ApplicationParametersHelper {
  import opened CompressorActionTypes
  import opened AppParameters

  // ---------------------------------------------------------------------------
  // ParseArguments

  /** The file name `ParseArguments` uses whatever the arguments are. */
  const FILE_NAME: string := "harry potter 4.mp4"

  /** What `ParseArguments` always returns. */
  const DEFAULT_PARAMETERS: ApplicationParameters :=
    ApplicationParameters(Some(FILE_NAME), Some(FILE_NAME + ".vzip"), Compress)

  /** `ParseArguments`: the arguments are ignored; the builder gets the fixed
      source, the same name with `.vzip` appended as target, and `Compress`. */
  method ParseArguments(args: seq<string>) returns (p: ApplicationParameters)
    ensures p.sourceFilePath == Some("harry potter 4.mp4")
    ensures p.targetFilePath == Some("harry potter 4.mp4.vzip")
    ensures p.actionType == Compress
    ensures p == DEFAULT_PARAMETERS
  {
    assert FILE_NAME + ".vzip" == "harry potter 4.mp4.vzip";
    var source := FILE_NAME;
    var target := FILE_NAME + ".vzip";
    var builder := new Builder();
    var b1 := builder.SetSourceFilePath(Some(source));
    var b2 := b1.SetTargetFilePath(Some(target));
    var b3 := b2.SetCompressorActionType(Compress);
    p := b3.Build();
  }

  // ---------------------------------------------------------------------------
  // Character tests

  /** `char.IsWhiteSpace`: the Unicode space, line and paragraph separators,
      the controls U+0009 to U+000D, and U+0085. */
  predicate IsWhiteSpace(c: char) {
    var n := c as int;
    || 0x09 <= n <= 0x0D || n == 0x20 || n == 0x85 || n == 0xA0 || n == 0x1680
    || 0x2000 <= n <= 0x200A || n == 0x2028 || n == 0x2029 || n == 0x202F
    || n == 0x205F || n == 0x3000
  }

  /** `string.IsNullOrWhiteSpace`. */
  predicate IsNullOrWhiteSpace(s: Option<string>) {
    s.None? || forall i :: 0 <= i < |s.value| ==> IsWhiteSpace(s.value[i])
  }

  /** `chars.Any(path.Contains)`, scanning `chars` from the front. */
  function AnyContained(chars: seq<char>, path: string): (r: bool)
    ensures r <==> exists k :: 0 <= k < |chars| && chars[k] in path
  {
    if chars == [] then false
    else if chars[0] in path then true
    else
      var rest := AnyContained(chars[1..], path);
      assert rest <==> exists k :: 1 <= k < |chars| && chars[k] in path by {
        if rest {
          var k :| 0 <= k < |chars[1..]| && chars[1..][k] in path;
          assert chars[k + 1] in path;
        }
        if exists k :: 1 <= k < |chars| && chars[k] in path {
          var k :| 1 <= k < |chars| && chars[k] in path;
          assert chars[1..][k - 1] in path;
        }
      }
      rest
  }

  /** `IsPathValid`: no invalid file-name character and no invalid path
      character occurs in the path. */
  function IsPathValid(path: string, invalidFileNameChars: seq<char>, invalidPathChars: seq<char>): (r: bool)
    ensures r <==> forall c :: c in path ==> c !in invalidFileNameChars && c !in invalidPathChars
  {
    if AnyContained(invalidFileNameChars, path) then false
    else if AnyContained(invalidPathChars, path) then false
    else true
  }

  // ---------------------------------------------------------------------------
  // IsValid

  const SOURCE_MISSING: string := "Не указано название исходного файла"
  const SOURCE_INVALID: string := "Путь до исходного файла невалиден"
  const TARGET_MISSING: string := "Не указано название выходного файла"
  const TARGET_INVALID: string := "Путь до выходного файла невалиден"
  const UNKNOWN_ACTION: string := "Неизвестный тип действия"

  /** The check of one path: a missing (null or blank) path is reported as
      missing and not checked further; otherwise an invalid character is
      reported as an invalid path. */
  function PathErrors(path: Option<string>, missing: string, invalid: string,
                      invalidFileNameChars: seq<char>, invalidPathChars: seq<char>): seq<string>
  {
    if IsNullOrWhiteSpace(path) then [missing]
    else if !IsPathValid(path.value, invalidFileNameChars, invalidPathChars) then [invalid]
    else []
  }

  /** The errors `IsValid` collects, in the order it checks: source, target,
      action type. */
  function ValidationErrors(parameters: ApplicationParameters,
                            invalidFileNameChars: seq<char>, invalidPathChars: seq<char>): seq<string>
  {
    PathErrors(parameters.sourceFilePath, SOURCE_MISSING, SOURCE_INVALID, invalidFileNameChars, invalidPathChars)
    + PathErrors(parameters.targetFilePath, TARGET_MISSING, TARGET_INVALID, invalidFileNameChars, invalidPathChars)
    + (if parameters.actionType == Unknown then [UNKNOWN_ACTION] else [])
  }

  /** `IsValid`: the error list is built by successive `Add` calls; the
      result is whether it stayed empty. */
  method IsValid(parameters: ApplicationParameters, invalidFileNameChars: seq<char>, invalidPathChars: seq<char>)
    returns (valid: bool, errors: seq<string>)
    ensures errors == ValidationErrors(parameters, invalidFileNameChars, invalidPathChars)
    ensures valid <==> errors == []
  {
    var validationErrors: seq<string> := [];
    if IsNullOrWhiteSpace(parameters.sourceFilePath) {
      validationErrors := validationErrors + [SOURCE_MISSING];
    } else if !IsPathValid(parameters.sourceFilePath.value, invalidFileNameChars, invalidPathChars) {
      validationErrors := validationErrors + [SOURCE_INVALID];
    }
    if IsNullOrWhiteSpace(parameters.targetFilePath) {
      validationErrors := validationErrors + [TARGET_MISSING];
    } else if !IsPathValid(parameters.targetFilePath.value, invalidFileNameChars, invalidPathChars) {
      validationErrors := validationErrors + [TARGET_INVALID];
    }
    if parameters.actionType == Unknown {
      validationErrors := validationErrors + [UNKNOWN_ACTION];
    }
    errors := validationErrors;
    valid := |errors| == 0;
  }

  /** A path is acceptable when it is present, not blank, and free of invalid characters. */
  predicate PathAccepted(path: Option<string>, invalidFileNameChars: seq<char>, invalidPathChars: seq<char>) {
    && !IsNullOrWhiteSpace(path)
    && forall c :: c in path.value ==> c !in invalidFileNameChars && c !in invalidPathChars
  }

  /** The parameters are valid exactly when both paths are acceptable and
      the action type is known. */
  lemma ValidIff(parameters: ApplicationParameters, invalidFileNameChars: seq<char>, invalidPathChars: seq<char>)
    ensures ValidationErrors(parameters, invalidFileNameChars, invalidPathChars) == [] <==>
      && PathAccepted(parameters.sourceFilePath, invalidFileNameChars, invalidPathChars)
      && PathAccepted(parameters.targetFilePath, invalidFileNameChars, invalidPathChars)
      && parameters.actionType != Unknown
  {
  }

  /** Which errors appear: a blank source is reported as missing and never
      as invalid, a present one with an invalid character as invalid only;
      the same for the target; and the action error exactly for `Unknown`. */
  lemma ErrorsReported(parameters: ApplicationParameters, invalidFileNameChars: seq<char>, invalidPathChars: seq<char>)
    ensures var errors := ValidationErrors(parameters, invalidFileNameChars, invalidPathChars);
      var source := parameters.sourceFilePath;
      var target := parameters.targetFilePath;
      && (SOURCE_MISSING in errors <==> IsNullOrWhiteSpace(source))
      && (SOURCE_INVALID in errors <==>
            !IsNullOrWhiteSpace(source) && !IsPathValid(source.value, invalidFileNameChars, invalidPathChars))
      && (TARGET_MISSING in errors <==> IsNullOrWhiteSpace(target))
      && (TARGET_INVALID in errors <==>
            !IsNullOrWhiteSpace(target) && !IsPathValid(target.value, invalidFileNameChars, invalidPathChars))
      && (UNKNOWN_ACTION in errors <==> parameters.actionType == Unknown)
  {
  }

  /** The position of a message in the checking order. */
  function Rank(message: string): nat {
    if message == SOURCE_MISSING || message == SOURCE_INVALID then 0
    else if message == TARGET_MISSING || message == TARGET_INVALID then 1
    else 2
  }

  /** At most three errors, at most one per checked value, in the order
      source, target, action type. */
  lemma ErrorsOrdered(parameters: ApplicationParameters, invalidFileNameChars: seq<char>, invalidPathChars: seq<char>)
    ensures var errors := ValidationErrors(parameters, invalidFileNameChars, invalidPathChars);
      && |errors| <= 3
      && forall i, j :: 0 <= i < j < |errors| ==> Rank(errors[i]) < Rank(errors[j])
  {
  }

  /** The fixed parameters pass the check whenever no character of the two
      file names is invalid on the platform. */
  lemma DefaultParametersValid(invalidFileNameChars: seq<char>, invalidPathChars: seq<char>)
    requires forall c :: c in FILE_NAME + ".vzip" ==> c !in invalidFileNameChars && c !in invalidPathChars
    ensures ValidationErrors(DEFAULT_PARAMETERS, invalidFileNameChars, invalidPathChars) == []
  {
    var target := FILE_NAME + ".vzip";
    assert !IsWhiteSpace(FILE_NAME[0]) && target[0] == FILE_NAME[0];
    forall c | c in FILE_NAME ensures c in target {
      var i :| 0 <= i < |FILE_NAME| && FILE_NAME[i] == c;
      assert target[i] == c;
    }
  }
}
