/**
 * The state the `App` component keeps between renders (its `useState`
 * slots for the tree, the selected placeholder and the spinner) and the
 * handlers that change it.
 */
module App {
  import opened Wrappers
  import opened Events
  import Correlator
  import Presenter

  class LogExplorer {
    var logNodes: seq<LogNode>
    var selectedVar: VarSelection
    var loadingLogs: bool

    /** Every group of the tree has a child, as `logNodeRender` needs. */
    predicate Renderable()
      reads this
    {
      forall i :: 0 <= i < |logNodes| && logNodes[i].Group? ==> logNodes[i].children != []
    }

    /** The initial state: an empty tree, nothing selected, no spinner. */
    constructor ()
      ensures logNodes == [] && selectedVar == NoSelection && !loadingLogs
      ensures Renderable()
    {
      logNodes := [];
      selectedVar := NoSelection;
      loadingLogs := false;
    }

    /** `sendRequest`, up to the request itself: the spinner shows. */
    method SendRequest()
      modifies this
      ensures loadingLogs
      ensures logNodes == old(logNodes) && selectedVar == old(selectedVar)
    {
      loadingLogs := true;
    }

    /**
     * The response arrives: the tree is rebuilt from the events and the
     * spinner goes; the selection is kept, whatever the new tree holds.
     */
    method ReceiveLogs(data: seq<LogEvent>)
      modifies this
      ensures logNodes == Correlator.Forest(data)
      ensures selectedVar == old(selectedVar) && !loadingLogs
      ensures Renderable()
    {
      var nodes := Correlator.BuildLogNodes(data);
      Correlator.ForestGroups(data);
      logNodes := nodes;
      loadingLogs := false;
    }

    /** `selectVar` from a tag's click handler: the whole record is replaced. */
    method SelectVar(tag: Presenter.MessageNode)
      requires tag.VarTag?
      modifies this
      ensures selectedVar == Presenter.ClickSelection(tag)
      ensures logNodes == old(logNodes) && loadingLogs == old(loadingLogs)
    {
      selectedVar := Presenter.ClickSelection(tag);
    }

    /**
     * `titleRender` of a top-level node: the card of `logNodeRender`, its
     * message bound with the current selection, so that the tag the
     * selection names, and only that one, is highlighted.
     */
    method RenderTopLevel(i: nat) returns (d: Presenter.Display)
      requires i < |logNodes| && Renderable()
      ensures var node := logNodes[i];
        node.Group? ==>
          d == Presenter.Display(None, false, node.startTime,
                                 Some(Presenter.GroupElapsed(node.children)), [Presenter.Literal(node.key)])
      ensures var node := logNodes[i];
        node.Leaf? ==>
          var h := Presenter.SplitSeverity(Presenter.DisplayedMessage(node.event));
          var service := Presenter.SourceLabel(node.event.source);
          && d.sourceTag == (if service == [] then None else Some(service))
          && d.errorTag == (h.severity == "ERROR")
          && d.startTime == node.startTime
          && d.elapsed == None
          && d.message == Presenter.MessageNodes(node.key, h.body, node.event.expressions, selectedVar)
      ensures forall p :: 0 <= p < |d.message| && d.message[p].VarTag? ==>
        (d.message[p].highlighted <==> selectedVar.varId == Some(d.message[p].varId))
    {
      d := Presenter.RenderNode(logNodes[i], selectedVar);
      if logNodes[i].Leaf? {
        var node := logNodes[i];
        var h := Presenter.SplitSeverity(Presenter.DisplayedMessage(node.event));
        Presenter.HighlightFollowsSelection(node.key, h.body, node.event.expressions, selectedVar);
      }
    }
  }
}
