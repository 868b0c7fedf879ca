/** The command and host records of model/command.go and model/host.go,
    and the `WithTemplate` operations that run every string of a command
    through the template engine before it executes. */
module Commands {
  import opened Bytes
  import opened Results
  import opened TemplateEngine

  /** A host as the run loop sees it: its `address:port`, the password
      injected at elevation prompts, and its merged variables. The SSH
      client is not part of this model. */
  datatype Host = Host(address: Bytes, password: Bytes, variables: Vars)

  /** `model.Bash`: command lines run one after another. */
  datatype Bash = Bash(commands: seq<Bytes>)

  /** `model.Upload`: a local file copied to a remote destination, its
      contents templated first when `template` is set. */
  datatype Upload = Upload(template: bool, filename: Bytes, destination: Bytes)

  /** The two implementations of the `model.Command` interface. */
  datatype Command = RunBash(bash: Bash) | RunUpload(upload: Upload)

  /** Templates each line in order; the first line that fails stops the
      scan (in Go the panic leaves the later lines untouched). */
  function TemplateLines(vars: Vars, lines: seq<Bytes>): (r: Result<seq<Bytes>, TemplateError>)
    ensures r.Success? ==>
      |r.value| == |lines| &&
      forall i :: 0 <= i < |lines| ==> Template(vars, lines[i]) == Success(r.value[i])
    ensures r.Failure? ==>
      exists i :: 0 <= i < |lines| && Template(vars, lines[i]) == Failure(r.error) &&
        forall j :: 0 <= j < i ==> Template(vars, lines[j]).Success?
  {
    if |lines| == 0 then Success([])
    else
      var head :- Template(vars, lines[0]);
      var tail :- TemplateLines(vars, lines[1..]);
      Success([head] + tail)
  }

  /** `Bash.WithTemplate`: the same number of lines in the same order, line
      `i` replaced by its template. */
  function BashWithTemplate(b: Bash, host: Host): (r: Result<Bash, TemplateError>)
    ensures r.Success? ==>
      |r.value.commands| == |b.commands| &&
      forall i :: 0 <= i < |b.commands| ==>
        Template(host.variables, b.commands[i]) == Success(r.value.commands[i])
    ensures r.Failure? ==> r.error.key !in host.variables
  {
    var lines :- TemplateLines(host.variables, b.commands);
    Success(Bash(lines))
  }

  /** `Upload.WithTemplate`: filename then destination are templated; the
      `template` flag is kept. */
  function UploadWithTemplate(u: Upload, host: Host): (r: Result<Upload, TemplateError>)
    ensures r.Success? ==>
      && r.value.template == u.template
      && Template(host.variables, u.filename) == Success(r.value.filename)
      && Template(host.variables, u.destination) == Success(r.value.destination)
    ensures r.Failure? ==>
      Template(host.variables, u.filename) == Failure(r.error) ||
      (Template(host.variables, u.filename).Success? &&
       Template(host.variables, u.destination) == Failure(r.error))
  {
    var filename :- Template(host.variables, u.filename);
    var destination :- Template(host.variables, u.destination);
    Success(Upload(u.template, filename, destination))
  }

  /** The templating half of `Command.Run`: a command keeps its kind and
      goes through its own `WithTemplate`, whose failure it passes on. */
  function WithTemplate(c: Command, host: Host): (r: Result<Command, TemplateError>)
    ensures r.Success? ==> (r.value.RunBash? <==> c.RunBash?)
    ensures c.RunBash? ==> (r.Success? <==> BashWithTemplate(c.bash, host).Success?)
    ensures c.RunBash? && r.Success? ==> BashWithTemplate(c.bash, host) == Success(r.value.bash)
    ensures c.RunBash? && r.Failure? ==> BashWithTemplate(c.bash, host) == Failure(r.error)
    ensures c.RunUpload? ==> (r.Success? <==> UploadWithTemplate(c.upload, host).Success?)
    ensures c.RunUpload? && r.Success? ==> UploadWithTemplate(c.upload, host) == Success(r.value.upload)
    ensures c.RunUpload? && r.Failure? ==> UploadWithTemplate(c.upload, host) == Failure(r.error)
  {
    match c
    case RunBash(b) =>
      var b' :- BashWithTemplate(b, host);
      Success(RunBash(b'))
    case RunUpload(u) =>
      var u' :- UploadWithTemplate(u, host);
      Success(RunUpload(u'))
  }

  /** A command with no `{` anywhere is left exactly as it is. */
  lemma {:induction false} TemplateLinesIdentity(vars: Vars, lines: seq<Bytes>)
    requires forall i :: 0 <= i < |lines| ==> '{' !in lines[i]
    ensures TemplateLines(vars, lines) == Success(lines)
  {
    if |lines| > 0 {
      TemplateIdentity(vars, lines[0]);
      TemplateLinesIdentity(vars, lines[1..]);
      assert [lines[0]] + lines[1..] == lines;
    }
  }

  /** `Bash.WithTemplate` succeeds exactly when every line does. */
  lemma BashWithTemplateSucceedsIff(b: Bash, host: Host)
    ensures BashWithTemplate(b, host).Success? <==>
      forall i :: 0 <= i < |b.commands| ==> Template(host.variables, b.commands[i]).Success?
  {
    if !BashWithTemplate(b, host).Success? {
      var r := TemplateLines(host.variables, b.commands);
      assert r.Failure?;
    }
  }
}
