/**
 * The state kept by the Aegis window: which page is shown, the status line of the Process page
 * and its two animation counters, the `.pdf` filter on dropped files, and the agent list of the
 * Virtual Agents page.  Widgets are reduced to the values the code reads back or sets: label
 * texts and colours, whether an entry accepts input, whether a button is enabled.  Timers are
 * reduced to whether a callback is pending; the callback itself is a call of the same method.
 */
module Gui {
  import opened Wrappers
  import opened Text

  const Normal: string := "#E0E0E0"
  const Dim: string := "#A0A0A0"
  const ErrorColor: string := "#FF4C4C"
  const SuccessColor: string := "#00CC00"
  /** The two colours the idle status line alternates between. */
  const IdleColors: seq<string> := [Normal, Dim]

  /** `"." * n`. */
  function Dots(n: nat): (r: string)
    ensures |r| == n
    ensures forall k :: 0 <= k < n ==> r[k] == '.'
  {
    if n == 0 then [] else Dots(n - 1) + "."
  }

  // ---------------------------------------------------------------- dropped files

  /** `path.lower().endswith('.pdf')`. */
  predicate IsPdf(path: string)
  {
    EndsWith(Lower(path), ".pdf")
  }

  /** The dropped paths that are PDF files, in the order they were dropped. */
  function PdfFiles(files: seq<string>): (r: seq<string>)
    ensures |r| <= |files|
    ensures forall f :: f in r <==> f in files && IsPdf(f)
  {
    if files == [] then []
    else
      assert forall f :: f in files <==> f == files[0] || f in files[1..];
      (if IsPdf(files[0]) then [files[0]] else []) + PdfFiles(files[1..])
  }

  /** Filtering two batches one after the other is filtering them together: order is kept. */
  lemma {:induction false} PdfFilesAppend(a: seq<string>, b: seq<string>)
    ensures PdfFiles(a + b) == PdfFiles(a) + PdfFiles(b)
  {
    if a == [] {
      assert a + b == b;
    } else {
      assert (a + b)[0] == a[0];
      assert (a + b)[1..] == a[1..] + b;
      PdfFilesAppend(a[1..], b);
    }
  }

  /** A drop made only of PDF files is passed on whole. */
  lemma {:induction false} PdfFilesAllPdf(files: seq<string>)
    requires forall k :: 0 <= k < |files| ==> IsPdf(files[k])
    ensures PdfFiles(files) == files
  {
    if files != [] {
      PdfFilesAllPdf(files[1..]);
    }
  }

  /** The extension is compared without regard to case. */
  lemma PdfExtensionAnyCase(stem: string)
    ensures IsPdf(stem + ".pdf") && IsPdf(stem + ".PDF") && IsPdf(stem + ".Pdf")
  {
    var n := |stem| + 4;
    forall ext | ext in [".pdf", ".PDF", ".Pdf"] ensures IsPdf(stem + ext) {
      var low := Lower(stem + ext);
      assert low[n - 4..] == [LowerChar(ext[0]), LowerChar(ext[1]), LowerChar(ext[2]), LowerChar(ext[3])];
    }
  }

  /** What the file box says about the selection. */
  function FileInfo(files: seq<string>): string
  {
    if files == [] then "Drop PDFs here or click to browse"
    else if |files| == 1 then "Selected: " + Basename(files[0])
    else NatToString(|files|) + " PDF files selected."
  }

  /** "N file(s) dropped." / "N file(s) selected.": a count message never starts an animation. */
  function CountMessage(n: nat, verb: string): (m: string)
    requires 'P' !in verb
    ensures m != "Idle" && !Contains(m, "Processing")
  {
    var m := NatToString(n) + " file(s) " + verb + ".";
    assert IsDigit(m[0]);
    assert forall k :: 0 <= k < |m| ==> m[k] != 'P' by {
      assert forall k :: 0 <= k < |NatToString(n)| ==> m[k] == NatToString(n)[k];
    }
    MissingCharNotContained(m, "Processing", 0);
    m
  }

  const NoFilesSelected: string := "No files selected to process!"
  const OnlyPdfAccepted: string := "Only PDF files are accepted."
  const ProcessingComplete: string := "Processing complete!"

  /** The Process page's error for an empty selection leaves the animation stopped. */
  lemma NoFilesSelectedQuiet()
    ensures NoFilesSelected != "Idle" && !Contains(NoFilesSelected, "Processing")
  {
    MissingCharNotContained(NoFilesSelected, "Processing", 0);
  }

  /** The error for a drop without PDF files leaves the animation stopped. */
  lemma OnlyPdfAcceptedQuiet()
    ensures OnlyPdfAccepted != "Idle" && !Contains(OnlyPdfAccepted, "Processing")
  {
    MissingCharNotContained(OnlyPdfAccepted, "Processing", 2);
  }

  /** A message that begins with "Processing" starts the dot animation. */
  lemma ProcessingMessage(rest: string)
    ensures "Processing" + rest != "Idle" && Contains("Processing" + rest, "Processing")
  {
    var m := "Processing" + rest;
    assert m[..10] == "Processing";
    assert OccursAt(m, "Processing", 0);
  }

  // ---------------------------------------------------------------- Process page

  /** The Process page's selection, status line and animation state. */
  class ProcessPage {
    var selectedFiles: seq<string>
    var fileInfo: string
    var statusText: string
    var statusColor: string
    /** A timer callback is pending (`animation_id` is set). */
    var animating: bool
    var isProcessing: bool
    var idleColorIndex: nat
    var processingDots: nat

    /** The counters index a two-colour cycle and a three-step dot cycle. */
    predicate Valid()
      reads this
    {
      idleColorIndex < 2 && processingDots < 3
    }

    /** A fresh page: nothing selected, the status "Idle", and the idle animation under way. */
    constructor()
      ensures Valid() && selectedFiles == [] && fileInfo == FileInfo([])
      ensures statusText == "Status: Idle" && statusColor == Normal && animating && !isProcessing
      ensures idleColorIndex == 1 && processingDots == 0
    {
      selectedFiles := [];
      fileInfo := FileInfo([]);
      statusText := "Status: Idle";
      statusColor := Normal;
      animating := false;
      isProcessing := false;
      idleColorIndex := 0;
      processingDots := 0;
      new;
      StartIdleAnimation();
    }

    /**
     * `start_idle_animation`: unless processing, shows the current idle colour, advances the
     * colour index modulo 2 and schedules the next step.
     */
    method StartIdleAnimation()
      requires Valid()
      modifies this
      ensures Valid()
      ensures old(isProcessing) ==> animating == old(animating) && statusColor == old(statusColor)
                                    && idleColorIndex == old(idleColorIndex)
      ensures !old(isProcessing) ==> animating && statusColor == IdleColors[old(idleColorIndex)]
                                     && idleColorIndex == (old(idleColorIndex) + 1) % 2
      ensures statusText == old(statusText) && isProcessing == old(isProcessing)
      ensures processingDots == old(processingDots)
      ensures selectedFiles == old(selectedFiles) && fileInfo == old(fileInfo)
    {
      if isProcessing {
        return;
      }
      statusColor := IdleColors[idleColorIndex];
      idleColorIndex := (idleColorIndex + 1) % 2;
      animating := true;
    }

    /**
     * `start_processing_animation`: shows "Processing" with one to three dots, advances the dot
     * counter modulo 3 and schedules the next step.
     */
    method StartProcessingAnimation()
      requires Valid()
      modifies this
      ensures Valid() && animating
      ensures statusText == "Status: Processing" + Dots(old(processingDots) + 1) && statusColor == Normal
      ensures processingDots == (old(processingDots) + 1) % 3
      ensures idleColorIndex == old(idleColorIndex) && isProcessing == old(isProcessing)
      ensures selectedFiles == old(selectedFiles) && fileInfo == old(fileInfo)
    {
      statusText := "Status: Processing" + Dots(processingDots + 1);
      statusColor := Normal;
      processingDots := (processingDots + 1) % 3;
      animating := true;
    }

    /** `stop_animation`: cancels the pending step and resets both counters. */
    method StopAnimation()
      modifies this
      ensures Valid() && !animating && idleColorIndex == 0 && processingDots == 0
      ensures statusText == old(statusText) && statusColor == old(statusColor)
      ensures isProcessing == old(isProcessing)
      ensures selectedFiles == old(selectedFiles) && fileInfo == old(fileInfo)
    {
      animating := false;
      idleColorIndex := 0;
      processingDots := 0;
    }

    /**
     * `update_status_label`: stops the animation and shows the message; "Idle" clears the
     * processing flag and restarts the idle animation, and any other message containing
     * "Processing" sets the flag and starts the dot animation, which overwrites the text.
     */
    method UpdateStatusLabel(message: string, color: string)
      requires Valid()
      modifies this
      ensures Valid()
      ensures selectedFiles == old(selectedFiles) && fileInfo == old(fileInfo)
      ensures message == "Idle" ==>
                && !isProcessing && animating && statusText == "Status: Idle" && statusColor == Normal
                && idleColorIndex == 1 && processingDots == 0
      ensures message != "Idle" && Contains(message, "Processing") ==>
                && isProcessing && animating && statusText == "Status: Processing." && statusColor == Normal
                && idleColorIndex == 0 && processingDots == 1
      ensures message != "Idle" && !Contains(message, "Processing") ==>
                && isProcessing == old(isProcessing) && !animating
                && statusText == "Status: " + message && statusColor == color
                && idleColorIndex == 0 && processingDots == 0
    {
      StopAnimation();
      statusText := "Status: " + message;
      statusColor := color;
      if message == "Idle" {
        isProcessing := false;
        StartIdleAnimation();
      } else if Contains(message, "Processing") {
        isProcessing := true;
        StartProcessingAnimation();
        assert Dots(1) == ".";
      }
    }

    /** `handle_dropped_files`: the dropped files become the selection, and the count is reported. */
    method HandleDroppedFiles(paths: seq<string>)
      requires Valid()
      modifies this
      ensures Valid() && selectedFiles == paths && fileInfo == FileInfo(paths)
      ensures statusText == "Status: " + CountMessage(|paths|, "dropped") && statusColor == Normal
      ensures !animating && isProcessing == old(isProcessing) && idleColorIndex == 0 && processingDots == 0
    {
      selectedFiles := paths;
      fileInfo := FileInfo(paths);
      UpdateStatusLabel(CountMessage(|selectedFiles|, "dropped"), Normal);
    }

    /** `browse_files`, given what the file dialog returned: an empty answer changes nothing. */
    method BrowseFiles(paths: seq<string>)
      requires Valid()
      modifies this
      ensures Valid()
      ensures paths == [] ==> unchanged(this)
      ensures paths != [] ==> selectedFiles == paths && fileInfo == FileInfo(paths) && !animating
                              && statusText == "Status: " + CountMessage(|paths|, "selected")
                              && statusColor == Normal && isProcessing == old(isProcessing)
                              && idleColorIndex == 0 && processingDots == 0
    {
      if paths != [] {
        selectedFiles := paths;
        fileInfo := FileInfo(paths);
        UpdateStatusLabel(CountMessage(|selectedFiles|, "selected"), Normal);
      }
    }

    /**
     * `start_processing`: with nothing selected an error is shown; otherwise the "Processing ..."
     * message starts the dot animation.  The two-second timer that then calls
     * `on_processing_complete` is left to the caller.
     */
    method StartProcessing(profile: string)
      requires Valid()
      modifies this
      ensures Valid() && selectedFiles == old(selectedFiles) && fileInfo == old(fileInfo)
      ensures old(selectedFiles) == [] ==>
                && statusText == "Status: " + NoFilesSelected && statusColor == ErrorColor && !animating
                && isProcessing == old(isProcessing) && idleColorIndex == 0 && processingDots == 0
      ensures old(selectedFiles) != [] ==>
                && isProcessing && animating && statusText == "Status: Processing." && statusColor == Normal
                && idleColorIndex == 0 && processingDots == 1
    {
      if selectedFiles == [] {
        NoFilesSelectedQuiet();
        UpdateStatusLabel(NoFilesSelected, ErrorColor);
        return;
      }
      var rest := " " + NatToString(|selectedFiles|) + " file(s) with profile: " + profile;
      ProcessingMessage(rest);
      UpdateStatusLabel("Processing" + rest, Normal);
    }

    /**
     * `on_processing_complete`: reports "Processing complete!".  The message contains
     * "Processing", so the processing flag stays set and the dot animation restarts in its place.
     */
    method OnProcessingComplete()
      requires Valid()
      modifies this
      ensures Valid() && isProcessing && animating && statusText == "Status: Processing." && statusColor == Normal
      ensures idleColorIndex == 0 && processingDots == 1
      ensures selectedFiles == old(selectedFiles) && fileInfo == old(fileInfo)
    {
      ProcessingMessage(" complete!");
      assert ProcessingComplete == "Processing" + " complete!";
      UpdateStatusLabel(ProcessingComplete, SuccessColor);
    }
  }

  // ---------------------------------------------------------------- page switching

  const PageNames: set<string> := {"process", "credentials", "stats"}

  /** The content area: one page shown at a time. */
  class MainContent {
    var currentPage: string
    /** The pages currently gridded (shown). */
    var visible: set<string>
    const processPage: ProcessPage

    predicate Valid()
      reads this, processPage
    {
      currentPage in PageNames && visible == {currentPage} && processPage.Valid()
    }

    constructor()
      ensures Valid() && currentPage == "process" && fresh(processPage)
    {
      currentPage := "process";
      visible := {"process"};
      processPage := new ProcessPage();
    }

    /** `show_page`: a known page replaces the current one; an unknown name changes nothing. */
    method ShowPage(name: string)
      requires Valid()
      modifies this
      ensures Valid()
      ensures name in PageNames ==> currentPage == name
      ensures name !in PageNames ==> currentPage == old(currentPage) && visible == old(visible)
    {
      if name in PageNames {
        visible := visible - {currentPage};
        visible := visible + {name};
        currentPage := name;
      }
    }
  }

  /** The application window; only its drop handler is modelled. */
  class AegisApp {
    const mainContent: MainContent

    predicate Valid()
      reads this, mainContent, mainContent.processPage
    {
      mainContent.Valid()
    }

    constructor()
      ensures Valid() && fresh(mainContent) && fresh(mainContent.processPage)
    {
      mainContent := new MainContent();
    }

    /**
     * `handle_drop`, given the paths Tk's `splitlist` made of the drop: the PDF files among them
     * go to the Process page in order; when there are none an error is shown instead.
     */
    method HandleDrop(files: seq<string>)
      requires Valid()
      modifies mainContent.processPage
      ensures Valid()
      ensures PdfFiles(files) != [] ==>
                && mainContent.processPage.selectedFiles == PdfFiles(files)
                && mainContent.processPage.fileInfo == FileInfo(PdfFiles(files))
                && mainContent.processPage.statusText == "Status: " + CountMessage(|PdfFiles(files)|, "dropped")
                && mainContent.processPage.statusColor == Normal
      ensures PdfFiles(files) == [] ==>
                && mainContent.processPage.selectedFiles == old(mainContent.processPage.selectedFiles)
                && mainContent.processPage.fileInfo == old(mainContent.processPage.fileInfo)
                && mainContent.processPage.statusText == "Status: " + OnlyPdfAccepted
                && mainContent.processPage.statusColor == ErrorColor
      ensures !mainContent.processPage.animating
      ensures mainContent.processPage.isProcessing == old(mainContent.processPage.isProcessing)
      ensures mainContent.processPage.idleColorIndex == 0 && mainContent.processPage.processingDots == 0
    {
      var pdfFiles := PdfFiles(files);
      if pdfFiles != [] {
        mainContent.processPage.HandleDroppedFiles(pdfFiles);
      } else {
        OnlyPdfAcceptedQuiet();
        mainContent.processPage.UpdateStatusLabel(OnlyPdfAccepted, ErrorColor);
      }
    }
  }

  // ---------------------------------------------------------------- agent credentials

  const CreateNew: string := "Create New Agent"
  const FieldsRequired: string := "All fields are required."
  const NameExists: string := "Agent name already exists."
  const AgentCreated: string := "Agent created successfully."
  const AgentUpdated: string := "Agent updated successfully."
  const NoneSelected: string := "No agent selected for editing."

  /** One stored agent: `[name, username, password, is_permanent]`. */
  datatype Agent = Agent(name: string, username: string, password: string, permanent: bool)

  function Names(agents: seq<Agent>): (r: seq<string>)
    ensures |r| == |agents|
    ensures forall k :: 0 <= k < |agents| ==> r[k] == agents[k].name
  {
    seq(|agents|, k requires 0 <= k < |agents| => agents[k].name)
  }

  /** The choices of the agent menu. */
  function MenuValues(agents: seq<Agent>): (r: seq<string>)
    ensures |r| == 1 + |agents| && r[0] == CreateNew
  {
    [CreateNew] + Names(agents)
  }

  /** `list.index(x)`: the first position holding `x`. */
  function IndexOf(xs: seq<string>, x: string): (i: nat)
    requires x in xs
    ensures i < |xs| && xs[i] == x
    ensures forall j :: 0 <= j < i ==> xs[j] != x
  {
    if xs[0] == x then 0 else 1 + IndexOf(xs[1..], x)
  }

  predicate UniqueNames(agents: seq<Agent>)
  {
    forall i, j :: 0 <= i < j < |agents| ==> agents[i].name != agents[j].name
  }

  /** Some agent other than the one at `index` already has this name. */
  predicate NameUsedElsewhere(agents: seq<Agent>, name: string, index: int)
  {
    exists j :: 0 <= j < |agents| && j != index && agents[j].name == name
  }

  /** All three entries hold something besides whitespace. */
  predicate Filled(name: string, username: string, password: string)
  {
    Strip(name) != "" && Strip(username) != "" && Strip(password) != ""
  }

  /** Appending an agent whose name is new keeps names unique. */
  lemma UniqueAfterAppend(agents: seq<Agent>, a: Agent)
    requires UniqueNames(agents) && a.name !in Names(agents)
    ensures UniqueNames(agents + [a])
  {
    var grown := agents + [a];
    forall i, j | 0 <= i < j < |grown| ensures grown[i].name != grown[j].name {
      if j == |agents| {
        assert Names(agents)[i] == grown[i].name;
      }
    }
  }

  /** Replacing an agent by one whose name no other agent has keeps names unique. */
  lemma UniqueAfterReplace(agents: seq<Agent>, index: nat, a: Agent)
    requires index < |agents| && UniqueNames(agents) && !NameUsedElsewhere(agents, a.name, index)
    ensures UniqueNames(agents[index := a])
  {
    var changed := agents[index := a];
    forall i, j | 0 <= i < j < |changed| ensures changed[i].name != changed[j].name {
      if i == index {
        assert agents[j].name != a.name;
      } else if j == index {
        assert agents[i].name != a.name;
      }
    }
  }

  /** The Virtual Agents page: the agent list, the selection and the editing state. */
  class CredentialsPage {
    var agents: seq<Agent>
    var selectedIndex: int
    var isEditing: bool
    /** The texts of the name, username and password entries and the "Save Permanently" box. */
    var nameText: string
    var usernameText: string
    var passwordText: string
    var permanent: bool
    /** The entries and the checkbox accept input. */
    var fieldsEnabled: bool
    var editEnabled: bool
    var saveEnabled: bool

    /** The selection is "none" (-1) or an agent, and no two agents share a name. */
    predicate Valid()
      reads this
    {
      -1 <= selectedIndex < |agents| && UniqueNames(agents)
    }

    constructor()
      ensures Valid() && agents == [] && selectedIndex == -1 && !isEditing
      ensures !fieldsEnabled && !editEnabled && !saveEnabled
    {
      agents := [];
      selectedIndex := -1;
      isEditing := false;
      nameText, usernameText, passwordText, permanent := "", "", "", false;
      fieldsEnabled, editEnabled, saveEnabled := false, false, false;
    }

    /** The user typing into the entries: only enabled entries take input. */
    method FillIn(name: string, username: string, password: string, keep: bool)
      modifies this
      ensures fieldsEnabled ==> nameText == name && usernameText == username && passwordText == password
                                && permanent == keep
      ensures !fieldsEnabled ==> nameText == old(nameText) && usernameText == old(usernameText)
                                 && passwordText == old(passwordText) && permanent == old(permanent)
      ensures agents == old(agents) && selectedIndex == old(selectedIndex) && isEditing == old(isEditing)
      ensures fieldsEnabled == old(fieldsEnabled) && editEnabled == old(editEnabled)
      ensures saveEnabled == old(saveEnabled)
    {
      if fieldsEnabled {
        nameText, usernameText, passwordText, permanent := name, username, password, keep;
      }
    }

    /**
     * `on_agent_select`: "Create New Agent" selects no agent and enables the entries; any other
     * choice selects the agent of that name and makes the entries read-only.  The entries are
     * cleared and refilled before their state changes, and Tk ignores edits of a disabled entry,
     * so the texts change only when the entries were enabled; the checkbox variable always does.
     */
    method OnAgentSelect(selected: string)
      requires Valid()
      requires selected in MenuValues(agents)
      modifies this
      ensures Valid() && agents == old(agents) && !isEditing && !saveEnabled
      ensures !old(fieldsEnabled) ==>
                nameText == old(nameText) && usernameText == old(usernameText) && passwordText == old(passwordText)
      ensures selected == CreateNew ==>
                && selectedIndex == -1 && fieldsEnabled && !editEnabled && !permanent
                && (old(fieldsEnabled) ==> nameText == "" && usernameText == "" && passwordText == "")
      ensures selected != CreateNew ==>
                && 0 <= selectedIndex < |agents| && agents[selectedIndex].name == selected
                && (forall j :: 0 <= j < selectedIndex ==> agents[j].name != selected)
                && !fieldsEnabled && editEnabled && permanent == agents[selectedIndex].permanent
                && (old(fieldsEnabled) ==>
                      && nameText == selected && usernameText == agents[selectedIndex].username
                      && passwordText == agents[selectedIndex].password)
    {
      isEditing := false;
      if selected == CreateNew {
        selectedIndex := -1;
        if fieldsEnabled {
          nameText, usernameText, passwordText := "", "", "";
        }
        permanent := false;
        fieldsEnabled, editEnabled, saveEnabled := true, false, false;
      } else {
        var index := IndexOf(Names(agents), selected);
        selectedIndex := index;
        var agent := agents[index];
        if fieldsEnabled {
          nameText, usernameText, passwordText := agent.name, agent.username, agent.password;
        }
        permanent := agent.permanent;
        fieldsEnabled, editEnabled, saveEnabled := false, true, false;
      }
    }

    /** `enable_edit_mode`: editing starts, the entries accept input and saving is enabled. */
    method EnableEditMode()
      modifies this
      ensures isEditing && fieldsEnabled && saveEnabled
      ensures agents == old(agents) && selectedIndex == old(selectedIndex) && editEnabled == old(editEnabled)
      ensures nameText == old(nameText) && usernameText == old(usernameText)
      ensures passwordText == old(passwordText) && permanent == old(permanent)
    {
      isEditing := true;
      fieldsEnabled := true;
      saveEnabled := true;
    }

    /**
     * `create_agent`: the stripped name, username and password are all required and the name
     * must be new; then exactly one agent is appended and selected.  The message is what the
     * Process page's status line is told.
     */
    method CreateAgent() returns (message: string)
      requires Valid()
      modifies this
      ensures Valid()
      ensures !Filled(old(nameText), old(usernameText), old(passwordText)) ==>
                message == FieldsRequired && unchanged(this)
      ensures Filled(old(nameText), old(usernameText), old(passwordText)) && Strip(old(nameText)) in Names(old(agents)) ==>
                message == NameExists && unchanged(this)
      ensures Filled(old(nameText), old(usernameText), old(passwordText)) && Strip(old(nameText)) !in Names(old(agents)) ==>
                && message == AgentCreated
                && agents == old(agents) + [Agent(Strip(old(nameText)), Strip(old(usernameText)),
                                                  Strip(old(passwordText)), old(permanent))]
                && selectedIndex == |agents| - 1
                && !fieldsEnabled && editEnabled && !saveEnabled
      ensures isEditing == old(isEditing)
      ensures nameText == old(nameText) && usernameText == old(usernameText)
      ensures passwordText == old(passwordText) && permanent == old(permanent)
    {
      var name := Strip(nameText);
      var username := Strip(usernameText);
      var password := Strip(passwordText);
      if name == "" || username == "" || password == "" {
        return FieldsRequired;
      }
      if name in Names(agents) {
        return NameExists;
      }
      UniqueAfterAppend(agents, Agent(name, username, password, permanent));
      agents := agents + [Agent(name, username, password, permanent)];
      selectedIndex := |agents| - 1;
      fieldsEnabled, editEnabled, saveEnabled := false, true, false;
      message := AgentCreated;
    }

    /**
     * `save_changes`: outside edit mode nothing happens; with no agent selected an error is
     * reported; otherwise the stripped fields are required, the name must not belong to another
     * agent, and then only the selected agent is replaced and edit mode ends.
     */
    method SaveChanges() returns (message: Option<string>)
      requires Valid()
      modifies this
      ensures Valid() && selectedIndex == old(selectedIndex)
      ensures nameText == old(nameText) && usernameText == old(usernameText)
      ensures passwordText == old(passwordText) && permanent == old(permanent)
      ensures !old(isEditing) ==> message == None && unchanged(this)
      ensures old(isEditing) && old(selectedIndex) < 0 ==>
                message == Some(NoneSelected) && unchanged(this)
      ensures old(isEditing) && old(selectedIndex) >= 0 && !Filled(old(nameText), old(usernameText), old(passwordText)) ==>
                message == Some(FieldsRequired) && unchanged(this)
      ensures old(isEditing) && old(selectedIndex) >= 0 && Filled(old(nameText), old(usernameText), old(passwordText))
              && NameUsedElsewhere(old(agents), Strip(old(nameText)), old(selectedIndex)) ==>
                message == Some(NameExists) && unchanged(this)
      ensures old(isEditing) && old(selectedIndex) >= 0 && Filled(old(nameText), old(usernameText), old(passwordText))
              && !NameUsedElsewhere(old(agents), Strip(old(nameText)), old(selectedIndex)) ==>
                && message == Some(AgentUpdated)
                && agents == old(agents)[old(selectedIndex) := Agent(Strip(old(nameText)), Strip(old(usernameText)),
                                                                     Strip(old(passwordText)), old(permanent))]
                && !isEditing && !fieldsEnabled && editEnabled && !saveEnabled
    {
      if !isEditing {
        return None;
      }
      var index := selectedIndex;
      if index >= 0 {
        var name := Strip(nameText);
        var username := Strip(usernameText);
        var password := Strip(passwordText);
        if name == "" || username == "" || password == "" {
          return Some(FieldsRequired);
        }
        var i := 0;
        while i < |agents|
          invariant 0 <= i <= |agents|
          invariant forall j :: 0 <= j < i && j != index ==> agents[j].name != name
        {
          if i != index && agents[i].name == name {
            return Some(NameExists);
          }
          i := i + 1;
        }
        UniqueAfterReplace(agents, index, Agent(name, username, password, permanent));
        agents := agents[index := Agent(name, username, password, permanent)];
        fieldsEnabled, editEnabled, saveEnabled := false, true, false;
        isEditing := false;
        message := Some(AgentUpdated);
      } else {
        message := Some(NoneSelected);
      }
    }
  }
}
