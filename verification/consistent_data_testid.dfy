/**
  Rule `consistent-data-testid`: the value of a test-id attribute in JSX must
  match a configured pattern, in which the placeholder `{fileName}` stands
  for the name of the file being linted (its parent directory's name for an
  `index` file).
 */
module ConsistentDataTestId {
  import opened Syntax
  import opened Text

  /** `FILENAME_PLACEHOLDER`. */
  const FileNamePlaceholder: string := "{fileName}"

  /** The `testIdAttribute` option: one name, a list of names, or absent. */
  datatype TestIdAttribute = AttrName(name: string) | AttrNames(names: seq<string>) | AttrUnset

  /** The option's default value. */
  const DefaultTestIdAttribute: TestIdAttribute := AttrName("data-testid")

  datatype Options = Options(testIdPattern: string, testIdAttribute: TestIdAttribute)

  /** The parent of a `JSXIdentifier`: an attribute (with its value, if any) or something else. */
  datatype JsxParent = JsxAttribute(value: Option<Node>) | OtherJsxParent

  /**
    A `consistentDataTestId` diagnostic: the attribute, its value and the
    pattern it fails.  It is reported at the visited `JSXIdentifier`, the
    attribute's name.
   */
  datatype Diagnostic = Diagnostic(attr: string, value: string, regex: string)

  /**
    `getFileNameData().fileName` for the path `getFilename()` returns: the
    last `/`-segment up to its first `.`, or for `index` the segment before
    it (None when there is no such segment).
   */
  function GetFileNameData(filename: string): Option<string> {
    var splitPath := Split(filename, '/');
    var fileNameWithExtension := splitPath[|splitPath| - 1];
    var parent := if |splitPath| >= 2 then Some(splitPath[|splitPath| - 2]) else None;
    var fileName := Split(fileNameWithExtension, '.')[0];
    if fileName == "index" then parent else Some(fileName)
  }

  /** The final segment of the path, up to its first `.`, is the file name unless it is `index`. */
  lemma FileNameIsStemOfFinalSegment(path: string, segment: string, stem: string)
    requires IsFinalSegment(path, '/', segment) && IsLeadingSegment(segment, '.', stem)
    requires stem != "index"
    ensures GetFileNameData(path) == Some(stem)
  {
    var parts := Split(path, '/');
    SplitLastIsFinal(path, '/');
    FinalSegmentUnique(path, '/', parts[|parts| - 1], segment);
    SplitFirstIsLeading(segment, '.');
    LeadingSegmentUnique(segment, '.', Split(segment, '.')[0], stem);
  }

  /** An `index` file at the top of the path has no parent segment, so its file name is undefined. */
  lemma IndexWithoutDirectory(path: string)
    requires '/' !in path && IsLeadingSegment(path, '.', "index")
    ensures GetFileNameData(path).None?
  {
    SplitMany(path, '/');
    SplitLastIsFinal(path, '/');
    var parts := Split(path, '/');
    assert IsFinalSegment(path, '/', path);
    FinalSegmentUnique(path, '/', parts[0], path);
    SplitFirstIsLeading(path, '.');
    LeadingSegmentUnique(path, '.', Split(path, '.')[0], "index");
  }

  /** For `<dirs>/<index file>` the file name is the last segment of `dirs`. */
  lemma IndexUsesParentDirectory(dirs: string, parent: string, segment: string)
    requires IsFinalSegment(dirs, '/', parent)
    requires '/' !in segment && IsLeadingSegment(segment, '.', "index")
    ensures GetFileNameData(dirs + "/" + segment) == Some(parent)
  {
    SplitAround(dirs, '/', segment);
    SplitMany(segment, '/');
    var pd, ps := Split(dirs, '/'), Split(segment, '/');
    assert |ps| == 1;
    SplitLastIsFinal(segment, '/');
    assert IsFinalSegment(segment, '/', segment);
    FinalSegmentUnique(segment, '/', ps[0], segment);
    SplitLastIsFinal(dirs, '/');
    FinalSegmentUnique(dirs, '/', pd[|pd| - 1], parent);
    var parts := pd + ps;
    assert parts[|parts| - 1] == segment;
    assert parts[|parts| - 2] == parent;
    SplitFirstIsLeading(segment, '.');
    LeadingSegmentUnique(segment, '.', Split(segment, '.')[0], "index");
  }

  /** The pattern `getTestIdValidator` compiles: the first `{fileName}` replaced by the file name, `''` when undefined. */
  function TestIdValidatorPattern(testIdPattern: string, fileName: Option<string>): string {
    ReplaceFirst(testIdPattern, FileNamePlaceholder, fileName.GetOr(""))
  }

  /**
    Only the first placeholder is substituted; later ones stay in the pattern
    as written.  `before` is anything in which the placeholder does not start.
   */
  lemma PlaceholderReplacedOnce(before: string, after: string, fileName: string)
    requires forall j: nat :: j < |before| ==> !OccursAt(before + FileNamePlaceholder + after, FileNamePlaceholder, j)
    ensures TestIdValidatorPattern(before + FileNamePlaceholder + after, Some(fileName)) == before + fileName + after
  {
    ReplaceAfterPrefix(before, FileNamePlaceholder, after, fileName);
  }

  /** With no file name, the first placeholder is deleted. */
  lemma PlaceholderDeletedWithoutFileName(before: string, after: string)
    requires forall j: nat :: j < |before| ==> !OccursAt(before + FileNamePlaceholder + after, FileNamePlaceholder, j)
    ensures TestIdValidatorPattern(before + FileNamePlaceholder + after, None) == before + after
  {
    ReplaceAfterPrefix(before, FileNamePlaceholder, after, "");
    assert before + "" + after == before + after;
  }

  /** A regex quantifier before the placeholder, as in `^[a-z]{2}-{fileName}$`, does not hide it. */
  lemma PlaceholderAfterQuantifier(fileName: string)
    ensures TestIdValidatorPattern("^[a-z]{2}-{fileName}$", Some(fileName)) == "^[a-z]{2}-" + fileName + "$"
  {
    var before, after := "^[a-z]{2}-", "$";
    assert before + FileNamePlaceholder + after == "^[a-z]{2}-{fileName}$";
    forall j: nat | j < |before| ensures !OccursAt(before + FileNamePlaceholder + after, FileNamePlaceholder, j) {
      var s := before + FileNamePlaceholder + after;
      assert s[j + 1] != FileNamePlaceholder[1];
    }
    PlaceholderReplacedOnce(before, after, fileName);
  }

  /** `isTestIdAttribute(name)`. */
  predicate IsTestIdAttribute(attr: TestIdAttribute, name: string) {
    match attr
    case AttrName(a) => a == name
    case AttrNames(names) => name in names
    case AttrUnset => false
  }

  /** With the default option, exactly the attribute `data-testid` is a test-id attribute. */
  lemma DefaultMatchesDataTestIdOnly(name: string)
    ensures IsTestIdAttribute(DefaultTestIdAttribute, name) <==> name == "data-testid"
  {
  }

  /**
    The `JSXIdentifier` handler for identifier `name` with parent `parent`, in
    the file `filename`; `regexTest(pattern, value)` is `new RegExp(pattern).test(value)`.
   */
  function OnJsxIdentifier(options: Options, filename: string, regexTest: (string, string) -> bool,
                           name: string, parent: Option<JsxParent>): (d: Option<Diagnostic>)
    // nothing unless the parent is an attribute with a literal value and a test-id name
    ensures parent.None? || parent.value.OtherJsxParent? ==> d.None?
    ensures (parent.Some? && parent.value.JsxAttribute? &&
             (parent.value.value.None? || !parent.value.value.value.Literal?)) ==> d.None?
    // the attribute option: a string is compared, an array searched, an absent option matches nothing
    ensures options.testIdAttribute.AttrName? && options.testIdAttribute.name != name ==> d.None?
    ensures options.testIdAttribute.AttrNames? && name !in options.testIdAttribute.names ==> d.None?
    ensures options.testIdAttribute.AttrUnset? ==> d.None?
    // an empty or non-string value is never reported
    ensures d.Some? ==> d.value.value != "" &&
                        parent.Some? && parent.value.JsxAttribute? && parent.value.value.Some? &&
                        parent.value.value.value == Literal(StringValue(d.value.value), parent.value.value.value.raw)
    // and a non-empty string value of a test-id attribute that fails the pattern is reported
    ensures parent.Some? && parent.value.JsxAttribute? && parent.value.value.Some? &&
            parent.value.value.value.Literal? && parent.value.value.value.value.StringValue? &&
            IsTestIdAttribute(options.testIdAttribute, name) &&
            parent.value.value.value.value.str != "" &&
            !regexTest(TestIdValidatorPattern(options.testIdPattern, GetFileNameData(filename)),
                       parent.value.value.value.value.str)
            ==> d.Some?
    // a report names the attribute, and its value fails the pattern with the file name substituted
    ensures d.Some? ==> d.value.attr == name &&
                        d.value.regex == TestIdValidatorPattern(options.testIdPattern, GetFileNameData(filename)) &&
                        !regexTest(d.value.regex, d.value.value)
  {
    match parent
    case None => None
    case Some(OtherJsxParent) => None
    case Some(JsxAttribute(attrValue)) =>
      if attrValue.None? || !attrValue.value.Literal? || !IsTestIdAttribute(options.testIdAttribute, name) then None
      else
        var fileName := GetFileNameData(filename);
        var regex := TestIdValidatorPattern(options.testIdPattern, fileName);
        match attrValue.value.value
        case StringValue(value) =>
          if value != "" && !regexTest(regex, value) then Some(Diagnostic(name, value, regex)) else None
        case NonStringValue => None
  }
}
