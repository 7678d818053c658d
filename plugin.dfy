/** The plugin object and its settings tab: loading the settings, the pass
    that writes every open Markdown tab's title, and the depth field's
    change handler. */
module TabFilePath {
  import opened JsNumber
  import opened PathTitle
  import opened Settings

  /** One open Markdown leaf, reduced to what the plugin reads and writes:
      its file path, the `aria-label` of its tab header, the `innerText` of
      its tab header's title element, and whether that element carries the
      "tab__title" CSS class. */
  class Leaf {
    var path: string
    var ariaLabel: string
    var innerText: string
    var tagged: bool
  }

  /** Every leaf shows, in both its label fields, the title computed from
      its own path at the given depth. */
  predicate Reconciled(leaves: seq<Leaf>, depth: Number)
    reads set l: Leaf | l in leaves
  {
    forall k :: 0 <= k < |leaves| ==>
      leaves[k].ariaLabel == TabTitle(leaves[k].path, depth) &&
      leaves[k].innerText == TabTitle(leaves[k].path, depth)
  }

  class TabFilePathPlugin {
    var settings: TabFilePathSettings

    /** The settings start at their defaults until onload loads them. */
    constructor ()
      ensures settings == DefaultSettings
    {
      settings := DefaultSettings;
    }

    /** onload, given what loadData() found and the open Markdown leaves. */
    method OnLoad(loaded: Option<StoredData>, leaves: seq<Leaf>)
      modifies this, set l: Leaf | l in leaves
      ensures settings == MergeSettings(loaded)
      ensures Reconciled(leaves, settings.depth)
      ensures forall k :: 0 <= k < |leaves| ==> leaves[k].path == old(leaves[k].path)
      ensures forall k :: 0 <= k < |leaves| ==> leaves[k].tagged
    {
      LoadSettings(loaded);
      SetTabTitles(leaves);
    }

    method LoadSettings(loaded: Option<StoredData>)
      modifies this
      ensures settings == MergeSettings(loaded)
    {
      settings := MergeSettings(loaded);
    }

    /** The object saveData(this.settings) writes, which loads back as the
        current settings. */
    method SaveSettings() returns (saved: StoredData)
      ensures MergeSettings(Some(saved)) == settings
    {
      saved := Persisted(settings);
    }

    /** The `leaves.map(...)` half of setTabTitles: each leaf's title, in
        the order the leaves are listed, from its path with the ".md"
        suffix stripped, cut into segments and truncated to the depth. */
    method LeafTitles(leaves: seq<Leaf>) returns (titles: seq<string>)
      ensures |titles| == |leaves|
      ensures forall k :: 0 <= k < |leaves| ==> titles[k] == TabTitle(leaves[k].path, settings.depth)
    {
      titles := [];
      var i := 0;
      while i < |leaves|
        invariant 0 <= i <= |leaves| && |titles| == i
        invariant forall k :: 0 <= k < i ==> titles[k] == TabTitle(leaves[k].path, settings.depth)
      {
        var path := LeafName(leaves[i].path);
        var parts := Segments(path);
        var title := TruncatedPath(parts, settings.depth);
        assert title == TabTitle(leaves[i].path, settings.depth);
        titles := titles + [title];
        i := i + 1;
      }
    }

    /** setTabTitles: compute every leaf's title, then write each title
        into its leaf. The pass touches only the label fields and the tag;
        running it again over unchanged paths and depth writes back the
        same labels. */
    method SetTabTitles(leaves: seq<Leaf>)
      modifies set l: Leaf | l in leaves
      ensures Reconciled(leaves, settings.depth)
      ensures forall k :: 0 <= k < |leaves| ==> leaves[k].path == old(leaves[k].path)
      ensures forall k :: 0 <= k < |leaves| ==> leaves[k].tagged
      ensures old(Reconciled(leaves, settings.depth)) ==>
        forall k :: 0 <= k < |leaves| ==>
          leaves[k].ariaLabel == old(leaves[k].ariaLabel) && leaves[k].innerText == old(leaves[k].innerText)
    {
      var titles := LeafTitles(leaves);
      WriteTitles(leaves, titles);
      forall k | 0 <= k < |leaves|
        ensures titles[k] == TabTitle(leaves[k].path, settings.depth)
        ensures old(Reconciled(leaves, settings.depth)) ==>
          leaves[k].ariaLabel == old(leaves[k].ariaLabel) && leaves[k].innerText == old(leaves[k].innerText)
      {
        assert titles[k] == TabTitle(old(leaves[k].path), settings.depth);
      }
    }

    /** The `forEach` half of setTabTitles: the k-th title goes into the
        k-th leaf. A leaf listed twice gets the same title both times, as
        both are computed from its one path. */
    method WriteTitles(leaves: seq<Leaf>, titles: seq<string>)
      requires |titles| == |leaves|
      requires forall k, j :: 0 <= k < |leaves| && 0 <= j < |leaves| && leaves[k] == leaves[j] ==> titles[k] == titles[j]
      modifies set l: Leaf | l in leaves
      ensures forall k :: 0 <= k < |leaves| ==> leaves[k].path == old(leaves[k].path)
      ensures forall k :: 0 <= k < |leaves| ==>
        leaves[k].ariaLabel == titles[k] && leaves[k].innerText == titles[k] && leaves[k].tagged
    {
      var i := 0;
      while i < |leaves|
        invariant 0 <= i <= |leaves|
        invariant forall k :: 0 <= k < |leaves| ==> leaves[k].path == old(leaves[k].path)
        invariant forall k :: 0 <= k < i ==>
          leaves[k].ariaLabel == titles[k] && leaves[k].innerText == titles[k] && leaves[k].tagged
      {
        SetLeafTitle(leaves[i], titles[i]);
        i := i + 1;
      }
    }

    /** setLeafTitle: both label fields get the title and the title element
        is tagged; the path is left alone. */
    method SetLeafTitle(leaf: Leaf, title: string)
      modifies leaf
      ensures leaf.ariaLabel == title && leaf.innerText == title
      ensures leaf.tagged
      ensures leaf.path == old(leaf.path)
    {
      leaf.ariaLabel := title;
      leaf.innerText := title;
      leaf.tagged := true;
    }
  }

  /** The settings tab's depth field. */
  class TabFilePathSettingTab {
    const plugin: TabFilePathPlugin

    constructor (plugin: TabFilePathPlugin)
      ensures this.plugin == plugin
    {
      this.plugin := plugin;
    }

    /** The field's onChange handler: parse the text and clamp it to a
        depth, then apply that depth. */
    method OnDepthChange(value: string, leaves: seq<Leaf>) returns (saved: StoredData)
      modifies plugin, set l: Leaf | l in leaves
      ensures plugin.settings == old(plugin.settings).(depth := Int(DepthFromField(value)))
      ensures MergeSettings(Some(saved)) == plugin.settings
      ensures Reconciled(leaves, plugin.settings.depth)
      ensures forall k :: 0 <= k < |leaves| ==> leaves[k].path == old(leaves[k].path)
      ensures forall k :: 0 <= k < |leaves| ==> leaves[k].tagged
    {
      saved := ApplyDepth(DepthFromField(value), leaves);
    }

    /** The rest of the handler: store the depth, save the settings, and
        rewrite every tab title with the new depth. */
    method ApplyDepth(depth: nat, leaves: seq<Leaf>) returns (saved: StoredData)
      modifies plugin, set l: Leaf | l in leaves
      ensures plugin.settings == old(plugin.settings).(depth := Int(depth))
      ensures MergeSettings(Some(saved)) == plugin.settings
      ensures Reconciled(leaves, Int(depth))
      ensures forall k :: 0 <= k < |leaves| ==> leaves[k].path == old(leaves[k].path)
      ensures forall k :: 0 <= k < |leaves| ==> leaves[k].tagged
    {
      var updated := plugin.settings.(depth := Int(depth));
      plugin.settings := updated;
      assert forall k :: 0 <= k < |leaves| ==> leaves[k].path == old(leaves[k].path);
      saved := plugin.SaveSettings();
      plugin.SetTabTitles(leaves);
      assert plugin.settings == updated;
    }
  }
}
