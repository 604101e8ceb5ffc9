/** The site-wide settings row read by the public index page and written by
    the admin toggle. Its model class is not part of this model; it is kept
    to what the views and the admin use of it: one row, holding a maintenance
    flag, loaded with `SiteConfiguration.load()`. */
module SiteConfig {
  import opened Wrappers

  datatype SiteConfiguration = SiteConfiguration(maintenanceMode: bool)

  /** The configuration table: at most one row. */
  class ConfigTable {
    var row: Option<SiteConfiguration>

    constructor ()
      ensures row.None?
    {
      row := None;
    }

    /** `SiteConfiguration.load()`: the stored row, created with maintenance
        off when there is none yet. */
    method Load() returns (c: SiteConfiguration)
      modifies this
      ensures row == Some(c)
      ensures old(row).Some? ==> c == old(row).value
      ensures old(row).None? ==> c == SiteConfiguration(false)
    {
      if row.None? {
        row := Some(SiteConfiguration(false));
      }
      c := row.value;
    }

    /** `config.save()`. */
    method Save(c: SiteConfiguration)
      modifies this
      ensures row == Some(c)
    {
      row := Some(c);
    }

    /** `SiteConfigurationAdmin.has_add_permission`: a row may be added only
        while none exists. */
    function HasAddPermission(): (allowed: bool)
      reads this
      ensures allowed <==> row.None?
    {
      !row.Some?
    }
  }
}
