/**
 * The pure parts of the converter helper: the temp-file suffix for each
 * pandoc format and the command line handed to the shell.
 */
module Pandoc {
  import opened Wrappers

  /** Node's `Buffer`: raw bytes. */
  type Buffer = seq<bv8>

  /** The formats the helper names, as pandoc spells them. */
  datatype PandocFormat = Epub | Fb2 | Markdown | Html {
    function Name(): string {
      match this
      case Epub => "epub"
      case Fb2 => "fb2"
      case Markdown => "markdown"
      case Html => "html"
    }
  }

  /** `PandocFrom = "epub" | "fb2" | "markdown"`. */
  type PandocFrom = f: PandocFormat | !f.Html? witness Epub

  /** `PandocTo = "html"`. */
  type PandocTo = f: PandocFormat | f.Html? witness Html

  datatype PandocConvertInput = PandocConvertInput(
    buffer: Buffer,
    from: PandocFrom,
    fromOptions: Option<string>,
    to: PandocTo,
    toOptions: Option<string>,
    templatePath: Option<string>)

  /** Reads a format back from a temp-file suffix. */
  function FormatOfExtension(ext: string): (r: Option<PandocFormat>)
  {
    if ext == ".epub" then Some(Epub)
    else if ext == ".fb2" then Some(Fb2)
    else if ext == ".html" then Some(Html)
    else if ext == ".md" then Some(Markdown)
    else None
  }

  /** `getExtension`: the suffix of the temp file holding a document in that format; distinct formats get distinct suffixes. */
  function GetExtension(format: PandocFormat): (ext: string)
    ensures |ext| > 1 && ext[0] == '.'
    ensures FormatOfExtension(ext) == Some(format)
  {
    match format
    case Epub => ".epub"
    case Fb2 => ".fb2"
    case Html => ".html"
    case Markdown => ".md"
  }

  lemma GetExtensionInjective(a: PandocFormat, b: PandocFormat)
    requires GetExtension(a) == GetExtension(b)
    ensures a == b
  {
    assert Some(a) == FormatOfExtension(GetExtension(b)) == Some(b);
  }

  /**
   * The suffixes of the two temp files, `getExtension(from)` for the input
   * and `getExtension(to)` for the output: the output is always an ".html"
   * file and never shares its suffix with the input.
   */
  function TempSuffixes(input: PandocConvertInput): (r: (string, string))
    ensures FormatOfExtension(r.0) == Some(input.from)
    ensures r.1 == ".html"
    ensures r.0 != r.1
  {
    (GetExtension(input.from), GetExtension(input.to))
  }

  /** The command before the optional template flag; each options string is glued to its format with no space. */
  function BaseCommand(input: PandocConvertInput, inputPath: string, outputPath: string): string {
    "pandoc --from " + input.from.Name() + input.fromOptions.GetOr("")
      + " --to " + input.to.Name() + input.toOptions.GetOr("")
      + " " + inputPath + " -o " + outputPath + " --standalone --embed-resources"
  }

  /** The flag appended when a template is given. */
  function TemplateFlag(templatePath: string): string {
    " --template " + templatePath
  }

  /**
   * Builds the shell command: the base command, extended by the template flag
   * exactly when a template path is given.
   */
  method BuildCommand(input: PandocConvertInput, inputPath: string, outputPath: string) returns (cmd: string)
    ensures input.templatePath.None? ==> cmd == BaseCommand(input, inputPath, outputPath)
    ensures input.templatePath.Some? ==>
              cmd == BaseCommand(input, inputPath, outputPath) + TemplateFlag(input.templatePath.value)
  {
    cmd := BaseCommand(input, inputPath, outputPath);
    if input.templatePath.Some? {
      cmd := cmd + TemplateFlag(input.templatePath.value);
    }
  }

  /** The command begins by naming the source format, its options, then the target format and its options. */
  lemma BaseCommandPrefix(input: PandocConvertInput, inputPath: string, outputPath: string)
    ensures var head := "pandoc --from " + input.from.Name() + input.fromOptions.GetOr("")
                        + " --to " + input.to.Name() + input.toOptions.GetOr("") + " ";
            var cmd := BaseCommand(input, inputPath, outputPath);
            |head| <= |cmd| && cmd[..|head|] == head
            && cmd[|head|..] == inputPath + " -o " + outputPath + " --standalone --embed-resources"
  {
    var head := "pandoc --from " + input.from.Name() + input.fromOptions.GetOr("")
                + " --to " + input.to.Name() + input.toOptions.GetOr("") + " ";
    var tail := inputPath + " -o " + outputPath + " --standalone --embed-resources";
    assert BaseCommand(input, inputPath, outputPath) == head + tail;
  }

  /**
   * The template path can be read off the command: two commands for the same
   * input files agree only if their template paths agree.
   */
  lemma CommandDeterminesTemplate(input: PandocConvertInput, other: Option<string>,
                                                     inputPath: string, outputPath: string,
                                                     cmd1: string, cmd2: string)
    requires cmd1 == BaseCommand(input, inputPath, outputPath)
                     + (if input.templatePath.Some? then TemplateFlag(input.templatePath.value) else "")
    requires cmd2 == BaseCommand(input.(templatePath := other), inputPath, outputPath)
                     + (if other.Some? then TemplateFlag(other.value) else "")
    requires cmd1 == cmd2
    ensures input.templatePath == other
  {
    var base := BaseCommand(input, inputPath, outputPath);
    assert BaseCommand(input.(templatePath := other), inputPath, outputPath) == base;
    if input.templatePath.Some? && other.Some? {
      var t1, t2 := input.templatePath.value, other.value;
      assert cmd1 == base + " --template " + t1;
      assert cmd2 == base + " --template " + t2;
      assert |t1| == |t2|;
      forall i | 0 <= i < |t1| ensures t1[i] == t2[i] {
        assert cmd1[|base| + |" --template "| + i] == t1[i];
        assert cmd2[|base| + |" --template "| + i] == t2[i];
      }
      assert t1 == t2;
    }
  }
}
